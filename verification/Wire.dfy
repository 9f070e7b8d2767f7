/** Length-prefixed frames (dlstorage/connection_pool/wire.py) and the incremental frame reader of the
    multiplexed pool (dlstorage/connection_pool/mux.py).

    Pickling is a pair of functions given as a parameter; all that is assumed of it is in `Pickles`. */
module Wire {
  import opened Types

  type byte = b: int | 0 <= b < 256

  const HEADER_SIZE := 4
  const LIMIT := 0x1_0000_0000

  /** `n.to_bytes(4, "big")` */
  function ToBytes(n: nat): (h: seq<byte>)
    requires n < LIMIT
    ensures |h| == HEADER_SIZE
  {
    [n / 0x100_0000, n / 0x1_0000 % 0x100, n / 0x100 % 0x100, n % 0x100]
  }

  /** `int.from_bytes(h, "big")` */
  function FromBytes(h: seq<byte>): nat
    requires |h| == HEADER_SIZE
  {
    h[0] as int * 0x100_0000 + h[1] as int * 0x1_0000 + h[2] as int * 0x100 + h[3] as int
  }

  lemma HeaderRoundTrip(n: nat)
    requires n < LIMIT
    ensures FromBytes(ToBytes(n)) == n
  {
    var a, b, c := n / 0x100, n / 0x1_0000, n / 0x100_0000;
    assert n == 0x100 * a + n % 0x100;
    assert b == a / 0x100 && a == 0x100 * b + a % 0x100;
    assert c == b / 0x100 && b == 0x100 * c + b % 0x100;
  }

  lemma HeaderIsCanonical(h: seq<byte>)
    requires |h| == HEADER_SIZE
    ensures FromBytes(h) < LIMIT && ToBytes(FromBytes(h)) == h
  {
    var n := FromBytes(h);
    assert n / 0x100 == h[0] as int * 0x1_0000 + h[1] as int * 0x100 + h[2] as int;
    assert n / 0x1_0000 == h[0] as int * 0x100 + h[1] as int;
    assert n / 0x100_0000 == h[0];
  }

  /** The header puts the most significant byte first: of two lengths the smaller has the smaller header, byte
      by byte from the left, up to the longest length, which is all 255s. */
  lemma HeaderOrder(m: nat, n: nat) returns (i: nat)
    requires m < n < LIMIT
    ensures i < HEADER_SIZE && ToBytes(m)[..i] == ToBytes(n)[..i] && ToBytes(m)[i] < ToBytes(n)[i]
    ensures ToBytes(0) == [0, 0, 0, 0] && ToBytes(LIMIT - 1) == [255, 255, 255, 255]
  {
    HeaderRoundTrip(m);
    HeaderRoundTrip(n);
    var a, b := ToBytes(m), ToBytes(n);
    i := if a[0] != b[0] then 0 else if a[1] != b[1] then 1 else if a[2] != b[2] then 2 else 3;
  }

  function Frame(body: seq<byte>): seq<byte>
    requires |body| < LIMIT
  {
    ToBytes(|body|) + body
  }

  /** `pickle.loads`; `None` stands for an exception. */
  type Loads = seq<byte> -> Option<Message>

  /** `pickle.dumps`, which can raise too, and `pickle.loads`. */
  datatype Codec = Codec(dumps: Message -> Option<seq<byte>>, loads: Loads)

  /** What is pickled is read back, and nothing is read from no bytes. */
  ghost predicate Pickles(codec: Codec) {
    && codec.loads([]) == None
    && forall msg :: codec.dumps(msg).Some? ==> codec.loads(codec.dumps(msg).value) == Some(msg)
  }

  /** What `send_message` puts on the wire. `None` stands for an exception: the message cannot be pickled,
      or its body is too long for the header (OverflowError). */
  function Encode(codec: Codec, msg: Message): Option<seq<byte>> {
    var body := codec.dumps(msg);
    if body.Some? && |body.value| < LIMIT then Some(Frame(body.value)) else None
  }

  // ---------------------------------------------------------------- the blocking receiver

  /** One frame off the front of the stream, and what follows it; `None` stands for EOFError. */
  function Receive(stream: seq<byte>): Option<(seq<byte>, seq<byte>)> {
    if |stream| < HEADER_SIZE then None
    else
      var n := FromBytes(stream[..HEADER_SIZE]);
      if |stream| < HEADER_SIZE + n then None
      else Some((stream[HEADER_SIZE..HEADER_SIZE + n], stream[HEADER_SIZE + n..]))
  }

  /** The message in that frame, and what follows it; `None` stands for an exception, of `loads` too. */
  function ReceiveMessage(loads: Loads, stream: seq<byte>): Option<(Message, seq<byte>)> {
    match Receive(stream)
    case None => None
    case Some((body, rest)) =>
      var msg := loads(body);
      if msg.None? then None else Some((msg.value, rest))
  }

  /** A socket whose peer has sent `inbound` and then closed. */
  class Socket {
    var inbound: seq<byte>

    constructor (inbound: seq<byte>)
      ensures this.inbound == inbound
    {
      this.inbound := inbound;
    }

    /** `recv_into(view[pos:], want)`: some bytes, as many as the kernel likes; 0 at end of stream. */
    method RecvInto(buf: array<byte>, pos: nat, want: nat) returns (received: nat)
      requires pos + want <= buf.Length && want > 0
      modifies this, buf
      ensures received <= want && received <= |old(inbound)|
      ensures received == 0 <==> old(inbound) == []
      ensures inbound == old(inbound)[received..]
      ensures forall j :: 0 <= j < received ==> buf[pos + j] == old(inbound)[j]
      ensures forall j :: 0 <= j < pos ==> buf[j] == old(buf[j])
    {
      if inbound == [] {
        return 0;
      }
      var most := if want < |inbound| then want else |inbound|;
      received :| 1 <= received <= most;
      for i := 0 to received
        invariant inbound == old(inbound)
        invariant forall j :: 0 <= j < i ==> buf[pos + j] == inbound[j]
        invariant forall j :: 0 <= j < pos ==> buf[j] == old(buf[j])
      {
        buf[pos + i] := inbound[i];
      }
      inbound := inbound[received..];
    }
  }

  /** `_recvexactly`: `None` stands for EOFError. */
  method RecvExactly(sock: Socket, n: nat) returns (data: Option<seq<byte>>)
    modifies sock
    ensures data.Some? <==> n <= |old(sock.inbound)|
    ensures data.Some? ==> data.value == old(sock.inbound)[..n] && sock.inbound == old(sock.inbound)[n..]
  {
    var buf := new byte[n](_ => 0);
    var pos := 0;
    while pos < n
      invariant 0 <= pos <= n && pos <= |old(sock.inbound)|
      invariant forall j :: 0 <= j < pos ==> buf[j] == old(sock.inbound)[j]
      invariant sock.inbound == old(sock.inbound)[pos..]
    {
      var received := sock.RecvInto(buf, pos, n - pos);
      if received == 0 {
        return None;
      }
      assert forall j :: pos <= j < pos + received ==> buf[j] == buf[pos + (j - pos)];
      pos := pos + received;
    }
    assert buf[..] == old(sock.inbound)[..n];
    return Some(buf[..]);
  }

  /** `recv_message`: `None` stands for an exception. */
  method RecvMessage(sock: Socket, loads: Loads) returns (msg: Option<Message>)
    modifies sock
    ensures msg.Some? <==> ReceiveMessage(loads, old(sock.inbound)).Some?
    ensures msg.Some? ==> ReceiveMessage(loads, old(sock.inbound)) == Some((msg.value, sock.inbound))
  {
    var header := RecvExactly(sock, HEADER_SIZE);
    if header.None? {
      return None;
    }
    var n := FromBytes(header.value);
    var body := RecvExactly(sock, n);
    if body.None? {
      return None;
    }
    assert old(sock.inbound)[HEADER_SIZE..][n..] == old(sock.inbound)[HEADER_SIZE + n..];
    assert old(sock.inbound)[HEADER_SIZE..][..n] == old(sock.inbound)[HEADER_SIZE..HEADER_SIZE + n];
    msg := loads(body.value);
  }

  // ---------------------------------------------------------------- the incremental reader

  /** The reading half of an in-flight record: bytes so far of the part being read, that part's length,
      and whether the part is the body. */
  datatype Reader = Reader(buf: seq<byte>, expected: nat, hdrDone: bool)

  const FRESH := Reader([], HEADER_SIZE, false)

  datatype Progress = More(reader: Reader) | Complete(body: seq<byte>)

  function Need(r: Reader): int { r.expected - |r.buf| }

  /** A chunk arrived, no longer than what is needed. */
  function Feed(r: Reader, chunk: seq<byte>): Progress
    requires |chunk| <= Need(r) && (!r.hdrDone ==> r.expected == HEADER_SIZE)
  {
    var buf := r.buf + chunk;
    if |buf| < r.expected then More(r.(buf := buf))
    else if !r.hdrDone then More(Reader([], FromBytes(buf[..HEADER_SIZE]), true))
    else Complete(buf)
  }

  /** The bytes of the current frame the reader has taken off the stream. */
  function Consumed(r: Reader): seq<byte>
    requires Sound(r)
  {
    if r.hdrDone then ToBytes(r.expected) + r.buf else r.buf
  }

  /** A part is never left complete, except for a body of no bytes. */
  predicate Sound(r: Reader) {
    && r.expected < LIMIT && (|r.buf| < r.expected || (r.buf == [] && r.expected == 0))
    && (!r.hdrDone ==> r.expected == HEADER_SIZE)
  }

  /** Feeding moves bytes from the stream into the reader and loses none; a completed body is one frame. */
  lemma FeedConserves(r: Reader, chunk: seq<byte>)
    requires Sound(r) && chunk != [] && |chunk| <= Need(r)
    ensures match Feed(r, chunk)
            case More(r') => Sound(r') && Consumed(r') == Consumed(r) + chunk
            case Complete(body) => |body| < LIMIT && Frame(body) == Consumed(r) + chunk && body != []
  {
    var buf := r.buf + chunk;
    if |buf| == r.expected && !r.hdrDone {
      assert buf[..HEADER_SIZE] == buf;
      HeaderIsCanonical(buf);
    }
  }

  /** How a run of reads ends: waiting for bytes, with a message and the rest of the stream, or with the
      socket closed. */
  datatype Outcome = Starved(reader: Reader) | Delivered(msg: Message, rest: seq<byte>) | Failed

  /** A chunk size the kernel may choose: at least one byte, at most what is needed and what is there. */
  function Clip(size: nat, r: Reader, stream: seq<byte>): (k: nat)
    requires Need(r) > 0 && stream != []
    ensures 1 <= k <= |stream| && k <= Need(r)
  {
    var most := if Need(r) < |stream| then Need(r) else |stream|;
    if size < 1 then 1 else if size > most then most else size
  }

  /** Drive the reader over a stream, each `recv` returning a chunk of the size the kernel chose (at
      least one byte, at most what is needed and what is there). The selector calls only when there is
      something to read; if nothing is needed then, `recv(0)` looks like a closed peer. A complete body
      that `loads` rejects fails too. */
  function Pump(loads: Loads, r: Reader, stream: seq<byte>, sizes: seq<nat>): Outcome
    requires Sound(r)
    decreases |sizes|
  {
    if sizes == [] || stream == [] then Starved(r)
    else if Need(r) == 0 then Failed
    else
      var k := Clip(sizes[0], r, stream);
      FeedConserves(r, stream[..k]);
      match Feed(r, stream[..k])
      case More(r') => Pump(loads, r', stream[k..], sizes[1..])
      case Complete(body) =>
        var msg := loads(body);
        if msg.None? then Failed else Delivered(msg.value, stream[k..])
  }

  /** The message a run of reads comes to, if it comes to one. */
  function Yield(o: Outcome): Option<(Message, seq<byte>)> {
    if o.Delivered? then Some((o.msg, o.rest)) else None
  }

  lemma ReceiveFrame(body: seq<byte>, rest: seq<byte>)
    requires |body| < LIMIT
    ensures Receive(Frame(body) + rest) == Some((body, rest))
  {
    var stream := Frame(body) + rest;
    HeaderRoundTrip(|body|);
    assert stream[..HEADER_SIZE] == ToBytes(|body|);
  }

  /** What was sent is received; what cannot be sent is exactly what cannot be pickled or is too long. */
  lemma EncodeRoundTrip(codec: Codec, msg: Message, rest: seq<byte>)
    requires Pickles(codec)
    ensures match Encode(codec, msg)
            case None => codec.dumps(msg).None? || |codec.dumps(msg).value| >= LIMIT
            case Some(frame) => ReceiveMessage(codec.loads, frame + rest) == Some((msg, rest))
  {
    var body := codec.dumps(msg);
    if body.Some? && |body.value| < LIMIT {
      ReceiveFrame(body.value, rest);
    }
  }

  /** No frame is a proper prefix of another. */
  lemma FramesArePrefixFree(a: seq<byte>, b: seq<byte>, rest: seq<byte>)
    requires |a| < LIMIT && |b| < LIMIT && Frame(a) + rest == Frame(b)
    ensures a == b && rest == []
  {
    ReceiveFrame(a, rest);
    ReceiveFrame(b, []);
    assert Frame(b) + [] == Frame(b);
  }

  /** Taking part of the one frame of `body`: the reader still needs the rest, or has the body. */
  lemma WithinFrame(progress: Progress, taken: seq<byte>, rest: seq<byte>, body: seq<byte>)
    requires 0 < |body| < LIMIT && taken + rest == Frame(body)
    requires match progress
             case More(r) => Sound(r) && Consumed(r) == taken
             case Complete(b) => |b| < LIMIT && Frame(b) == taken
    ensures match progress
            case More(r) => Need(r) > 0
            case Complete(b) => b == body && rest == []
  {
    match progress
    case More(r) =>
      if Need(r) == 0 {
        assert Consumed(r) == Frame([]);
        FramesArePrefixFree([], body, rest);
      }
    case Complete(b) => FramesArePrefixFree(b, body, rest);
  }

  lemma SplitAfter(a: seq<byte>, s: seq<byte>, k: nat)
    requires k <= |s|
    ensures a + s == a + s[..k] + s[k..]
  {
  }

  lemma FeedWithinFrame(r: Reader, stream: seq<byte>, k: nat, body: seq<byte>)
    requires Sound(r) && 0 < k <= |stream| && k <= Need(r) && 0 < |body| < LIMIT
    requires Consumed(r) + stream == Frame(body)
    ensures match Feed(r, stream[..k])
            case More(r') => Sound(r') && Need(r') > 0 && Consumed(r') + stream[k..] == Frame(body)
            case Complete(b) => b == body && stream[k..] == []
  {
    FeedConserves(r, stream[..k]);
    SplitAfter(Consumed(r), stream, k);
    WithinFrame(Feed(r, stream[..k]), Consumed(r) + stream[..k], stream[k..], body);
  }

  /** A reader still in need of bytes has not taken a whole frame. */
  lemma HalfReadIsIncomplete(r: Reader)
    requires Sound(r) && Need(r) > 0
    ensures Receive(Consumed(r)) == None
  {
    if r.hdrDone {
      HeaderRoundTrip(r.expected);
      assert Consumed(r)[..HEADER_SIZE] == ToBytes(r.expected);
    }
  }

  /** What the reader makes of the frame the blocking receiver takes off the stream, if there is one. An
      empty body, which nothing is needed for, is noticed only when more can be read. */
  predicate Expectation(loads: Loads, frame: Option<(seq<byte>, seq<byte>)>, o: Outcome) {
    match frame
    case None => o.Starved?
    case Some((body, rest)) =>
      if loads(body).Some? then o == Delivered(loads(body).value, rest)
      else if body == [] && rest == [] then o.Starved?
      else o == Failed
  }

  ghost predicate AsExpected(loads: Loads, whole: seq<byte>, o: Outcome, chunks: nat, bytes: nat) {
    Expectation(loads, Receive(whole), o) || (o.Starved? && chunks < bytes)
  }

  lemma PumpEnds(loads: Loads, r: Reader, stream: seq<byte>, sizes: seq<nat>)
    requires loads([]) == None && Sound(r) && (Need(r) == 0 || stream == [] || sizes == [])
    ensures AsExpected(loads, Consumed(r) + stream, Pump(loads, r, stream, sizes), |sizes|, |stream|)
  {
    if Need(r) == 0 {
      assert Consumed(r) == Frame([]);
      ReceiveFrame([], stream);
    } else if stream == [] {
      assert Consumed(r) + stream == Consumed(r);
      HalfReadIsIncomplete(r);
    }
  }

  lemma {:induction false} PumpFrom(loads: Loads, r: Reader, stream: seq<byte>, sizes: seq<nat>)
    requires loads([]) == None && Sound(r)
    ensures AsExpected(loads, Consumed(r) + stream, Pump(loads, r, stream, sizes), |sizes|, |stream|)
    decreases |sizes|
  {
    if Need(r) == 0 || stream == [] || sizes == [] {
      PumpEnds(loads, r, stream, sizes);
    } else {
      var k := Clip(sizes[0], r, stream);
      var chunk, rest := stream[..k], stream[k..];
      SplitAfter(Consumed(r), stream, k);
      FeedConserves(r, chunk);
      match Feed(r, chunk)
      case Complete(body) => ReceiveFrame(body, rest);
      case More(r') => PumpFrom(loads, r', rest, sizes[1..]);
    }
  }

  /** The incremental reader refines the blocking receiver: on every stream, however it is chopped into
      chunks, both yield the same message and leave the same rest, or neither yields one. The first
      clause also tells waiting from failing; with fewer chunks than bytes the reader may still wait. */
  lemma {:induction false} ReaderRefinesReceive(loads: Loads, stream: seq<byte>, sizes: seq<nat>)
    requires loads([]) == None
    ensures var o := Pump(loads, FRESH, stream, sizes);
            Expectation(loads, Receive(stream), o) || (o.Starved? && |sizes| < |stream|)
    ensures |sizes| >= |stream| ==> Yield(Pump(loads, FRESH, stream, sizes)) == ReceiveMessage(loads, stream)
  {
    PumpFrom(loads, FRESH, stream, sizes);
    assert Consumed(FRESH) + stream == stream;
  }

  /** The frame of an empty body, as far as framing goes: it is a frame, no message comes of it, and the
      reader keeps waiting on it until there is something to read, and then fails. */
  lemma EmptyBody(loads: Loads, next: byte)
    requires loads([]) == None
    ensures Receive(Frame([])) == Some(([], [])) && ReceiveMessage(loads, Frame([])) == None
    ensures Pump(loads, FRESH, Frame([]), [4, 1, 1, 1, 1]).Starved?
    ensures Pump(loads, FRESH, Frame([]) + [next], [4, 1, 1, 1, 1]) == Failed
  {
    assert Frame([]) + [] == Frame([]);
    ReceiveFrame([], []);
    ReceiveFrame([], [next]);
    ReaderRefinesReceive(loads, Frame([]), [4, 1, 1, 1, 1]);
    ReaderRefinesReceive(loads, Frame([]) + [next], [4, 1, 1, 1, 1]);
  }

  // ---------------------------------------------------------------- many messages

  /** What sending the messages one after the other puts on the wire, if none of them raises. */
  function EncodeAll(codec: Codec, msgs: seq<Message>): Option<seq<byte>> {
    if msgs == [] then Some([])
    else
      var first, others := Encode(codec, msgs[0]), EncodeAll(codec, msgs[1..]);
      if first.None? || others.None? then None else Some(first.value + others.value)
  }

  /** One message after the other, each read in chunks of the sizes given for it. */
  function PumpAll(loads: Loads, stream: seq<byte>, sizes: seq<seq<nat>>): (seq<Message>, seq<byte>)
    decreases |sizes|
  {
    if sizes == [] then ([], stream)
    else
      match Pump(loads, FRESH, stream, sizes[0])
      case Delivered(msg, rest) =>
        var (msgs, end) := PumpAll(loads, rest, sizes[1..]);
        ([msg] + msgs, end)
      case _ => ([], stream)
  }

  function ReceiveAll(loads: Loads, stream: seq<byte>, count: nat): (seq<Message>, seq<byte>) {
    if count == 0 then ([], stream)
    else
      match ReceiveMessage(loads, stream)
      case None => ([], stream)
      case Some((msg, rest)) =>
        var (msgs, end) := ReceiveAll(loads, rest, count - 1);
        ([msg] + msgs, end)
  }

  /** Every entry is long enough to read the stream one byte at a time. */
  predicate Ample(sizes: seq<seq<nat>>, stream: seq<byte>) {
    forall s :: s in sizes ==> |s| >= |stream|
  }

  /** `stream` is the messages, sent one after the other, and then `rest`. */
  ghost predicate Spells(codec: Codec, stream: seq<byte>, msgs: seq<Message>, rest: seq<byte>) {
    EncodeAll(codec, msgs).Some? && stream == EncodeAll(codec, msgs).value + rest
  }

  /** The first message off the stream of several. */
  lemma FirstMessage(codec: Codec, stream: seq<byte>, msgs: seq<Message>, rest: seq<byte>) returns (tail: seq<byte>)
    requires Pickles(codec) && msgs != [] && Spells(codec, stream, msgs, rest)
    ensures ReceiveMessage(codec.loads, stream) == Some((msgs[0], tail)) && |tail| <= |stream|
    ensures Spells(codec, tail, msgs[1..], rest)
  {
    var frame := Encode(codec, msgs[0]).value;
    tail := EncodeAll(codec, msgs[1..]).value + rest;
    EncodeRoundTrip(codec, msgs[0], tail);
    assert stream == frame + tail;
  }

  lemma ReceiveOneMore(loads: Loads, stream: seq<byte>, tail: seq<byte>, msgs: seq<Message>, rest: seq<byte>)
    requires msgs != [] && ReceiveMessage(loads, stream) == Some((msgs[0], tail))
    requires ReceiveAll(loads, tail, |msgs| - 1) == (msgs[1..], rest)
    ensures ReceiveAll(loads, stream, |msgs|) == (msgs, rest)
  {
    assert msgs == [msgs[0]] + msgs[1..];
  }

  lemma PumpOneMore(loads: Loads, stream: seq<byte>, tail: seq<byte>, sizes: seq<seq<nat>>,
                    msgs: seq<Message>, rest: seq<byte>)
    requires loads([]) == None && msgs != [] && ReceiveMessage(loads, stream) == Some((msgs[0], tail))
    requires sizes != [] && |sizes[0]| >= |stream| && PumpAll(loads, tail, sizes[1..]) == (msgs[1..], rest)
    ensures PumpAll(loads, stream, sizes) == (msgs, rest)
  {
    ReaderRefinesReceive(loads, stream, sizes[0]);
    assert msgs == [msgs[0]] + msgs[1..];
  }

  lemma AmpleTail(sizes: seq<seq<nat>>, stream: seq<byte>, tail: seq<byte>)
    requires sizes != [] && Ample(sizes, stream) && |tail| <= |stream|
    ensures |sizes[0]| >= |stream| && Ample(sizes[1..], tail)
  {
  }

  lemma NothingSpelled(codec: Codec, stream: seq<byte>, rest: seq<byte>)
    requires Spells(codec, stream, [], rest)
    ensures stream == rest
  {
    assert EncodeAll(codec, []) == Some([]) && [] + rest == rest;
  }

  lemma {:induction false} AllReceived(codec: Codec, stream: seq<byte>, msgs: seq<Message>, rest: seq<byte>)
    requires Pickles(codec) && Spells(codec, stream, msgs, rest)
    ensures ReceiveAll(codec.loads, stream, |msgs|) == (msgs, rest)
    decreases |msgs|
  {
    if msgs == [] {
      NothingSpelled(codec, stream, rest);
    } else {
      var tail := FirstMessage(codec, stream, msgs, rest);
      AllReceived(codec, tail, msgs[1..], rest);
      ReceiveOneMore(codec.loads, stream, tail, msgs, rest);
    }
  }

  lemma {:induction false} AllPumped(codec: Codec, stream: seq<byte>, msgs: seq<Message>, rest: seq<byte>, sizes: seq<seq<nat>>)
    requires Pickles(codec) && Spells(codec, stream, msgs, rest)
    requires |sizes| == |msgs| && Ample(sizes, stream)
    ensures PumpAll(codec.loads, stream, sizes) == (msgs, rest)
    decreases |msgs|
  {
    if msgs == [] {
      NothingSpelled(codec, stream, rest);
    } else {
      var tail := FirstMessage(codec, stream, msgs, rest);
      AmpleTail(sizes, stream, tail);
      AllPumped(codec, tail, msgs[1..], rest, sizes[1..]);
      PumpOneMore(codec.loads, stream, tail, sizes, msgs, rest);
    }
  }

  /** Any sequence of messages that can be sent round trips through the encoder and either receiver,
      whatever follows it on the stream and however it is chopped up. */
  lemma MessagesRoundTrip(codec: Codec, msgs: seq<Message>, rest: seq<byte>, sizes: seq<seq<nat>>)
    requires Pickles(codec) && EncodeAll(codec, msgs).Some?
    requires |sizes| == |msgs| && Ample(sizes, EncodeAll(codec, msgs).value + rest)
    ensures ReceiveAll(codec.loads, EncodeAll(codec, msgs).value + rest, |msgs|) == (msgs, rest)
    ensures PumpAll(codec.loads, EncodeAll(codec, msgs).value + rest, sizes) == (msgs, rest)
  {
    AllReceived(codec, EncodeAll(codec, msgs).value + rest, msgs, rest);
    AllPumped(codec, EncodeAll(codec, msgs).value + rest, msgs, rest, sizes);
  }
}
