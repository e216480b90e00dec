/** Messages as length-prefixed frames over a byte stream that is read in pieces
    (communicator.cpp, communicator-tcp.cpp). */
module Framing {
  type Byte = x: nat | x < 256 witness 0

  const LIMIT: nat := 0x1_0000_0000

  // ---------------------------------------------------------------------
  // The wire

  /** htonl of a length, which is cut to 32 bits. */
  function Length32(n: nat): (s: seq<Byte>)
    ensures |s| == 4
  {
    [n / 0x100_0000 % 0x100, n / 0x1_0000 % 0x100, n / 0x100 % 0x100, n % 0x100]
  }

  /** ntohl. */
  function ReadLength(s: seq<Byte>): (n: nat)
    requires |s| == 4
    ensures n < LIMIT
  {
    var a: nat, b: nat, c: nat, d: nat := s[0], s[1], s[2], s[3];
    a * 0x100_0000 + b * 0x1_0000 + c * 0x100 + d
  }

  lemma Quotients(n: nat)
    ensures n / 0x1_0000 == n / 0x100 / 0x100
    ensures n / 0x100_0000 == n / 0x100 / 0x100 / 0x100
  {
  }

  lemma BelowLimit(q: nat, r: nat)
    requires r < LIMIT
    ensures (LIMIT * q + r) % LIMIT == r
  {
  }

  lemma LengthRoundTrip(n: nat)
    ensures ReadLength(Length32(n)) == n % LIMIT
  {
    var a := n / 0x100;
    var b := a / 0x100;
    var c := b / 0x100;
    Quotients(n);
    var r := ReadLength(Length32(n));
    assert r == c % 0x100 * 0x100_0000 + b % 0x100 * 0x1_0000 + a % 0x100 * 0x100 + n % 0x100;
    assert n == LIMIT * (c / 0x100) + r;
    BelowLimit(c / 0x100, r);
  }

  datatype Message = Message(id: seq<Byte>, body: seq<Byte>)

  /** What Communicator::send puts on the wire. */
  function Frame(m: Message): seq<Byte> {
    Length32(|m.id|) + m.id + Length32(|m.body|) + m.body
  }

  datatype Outcome = Closed | Truncated | Received(m: Message)

  /** What a receive makes of a stream, and what it leaves of it; id0 is what the caller
      passes for the identifier.  A stream that ends too early is used up. */
  datatype Reading = Reading(outcome: Outcome, rest: seq<Byte>)

  function Parse(s: seq<Byte>, id0: seq<Byte>): (r: Reading)
    ensures r.outcome.Received? ==> |r.rest| < |s|
  {
    if |s| < 4 then Reading(Closed, [])
    else
      var n := ReadLength(s[..4]);
      if |s| < n + 8 then Reading(Truncated, [])
      else
        var id := if n == 0 then id0 else s[4..n + 4];
        var m := ReadLength(s[n + 4..n + 8]);
        if |s| < n + 8 + m then Reading(Truncated, [])
        else Reading(Received(Message(id, s[n + 8..n + 8 + m])), s[n + 8 + m..])
  }

  // ---------------------------------------------------------------------
  // The code

  /** A connected socket: what will still arrive before the other side closes, and what
      has been written. */
  class Socket {
    var incoming: seq<Byte>
    var outgoing: seq<Byte>

    constructor (incoming: seq<Byte>)
      ensures this.incoming == incoming && outgoing == []
    {
      this.incoming, outgoing := incoming, [];
    }

    /** read: any number of bytes up to n, and none only at the end of the stream. */
    method Read(n: nat) returns (chunk: seq<Byte>)
      requires n > 0
      modifies this`incoming
      ensures |chunk| <= n && old(incoming) == chunk + incoming
      ensures chunk == [] <==> old(incoming) == []
    {
      if incoming == [] {
        return [];
      }
      var k: nat :| 1 <= k <= n && k <= |incoming|;
      chunk := incoming[..k];
      assert incoming == chunk + incoming[k..];
      incoming := incoming[k..];
    }

    method Write(bytes: seq<Byte>)
      modifies this`outgoing
      ensures outgoing == old(outgoing) + bytes
    {
      outgoing := outgoing + bytes;
    }
  }

  /** CommunicatorTcp::receive: fill a buffer, however the stream is cut into pieces. */
  method ReceiveBytes(socket: Socket, message: array<Byte>) returns (ok: bool)
    modifies socket`incoming, message
    ensures ok <==> |old(socket.incoming)| >= message.Length
    ensures ok ==> message[..] == old(socket.incoming)[..message.Length]
    ensures socket.incoming == if ok then old(socket.incoming)[message.Length..] else []
  {
    var bytesRead := 0;
    ghost var stream := socket.incoming;
    while bytesRead < message.Length
      invariant 0 <= bytesRead <= message.Length && bytesRead <= |stream|
      invariant socket.incoming == stream[bytesRead..]
      invariant message[..bytesRead] == stream[..bytesRead]
    {
      var chunk := socket.Read(message.Length - bytesRead);
      if chunk == [] {
        return false;
      }
      assert stream[bytesRead..] == chunk + socket.incoming;
      assert stream[..bytesRead + |chunk|] == stream[..bytesRead] + chunk;
      ghost var before := message[..bytesRead];
      forall i | 0 <= i < |chunk| {
        message[bytesRead + i] := chunk[i];
      }
      assert message[..bytesRead + |chunk|] == before + chunk;
      bytesRead := bytesRead + |chunk|;
    }
    assert message[..] == message[..bytesRead];
    ok := true;
  }

  method SendHeader(socket: Socket, messageId: seq<Byte>, messageLength: nat)
    modifies socket`outgoing
    ensures socket.outgoing == old(socket.outgoing) + Length32(|messageId|) + messageId + Length32(messageLength)
  {
    socket.Write(Length32(|messageId|));
    if |messageId| != 0 {
      socket.Write(messageId);
    }
    socket.Write(Length32(messageLength));
  }

  method Send(socket: Socket, messageId: seq<Byte>, message: seq<Byte>)
    modifies socket`outgoing
    ensures socket.outgoing == old(socket.outgoing) + Frame(Message(messageId, message))
  {
    SendHeader(socket, messageId, |message|);
    socket.Write(message);
    var f := Length32(|messageId|) + messageId + Length32(|message|);
    assert old(socket.outgoing) + Length32(|messageId|) + messageId + Length32(|message|) == old(socket.outgoing) + f;
    assert old(socket.outgoing) + f + message == old(socket.outgoing) + (f + message);
  }

  /** receiveHeader. */
  method ReceiveHeader(socket: Socket, messageId: seq<Byte>) returns (outcome: Outcome, id: seq<Byte>, length: nat)
    modifies socket`incoming
    ensures outcome == HeaderOutcome(old(socket.incoming))
    ensures outcome.Received? ==>
              var s := old(socket.incoming);
              var n := ReadLength(s[..4]);
              && id == (if n == 0 then messageId else s[4..n + 4])
              && length == ReadLength(s[n + 4..n + 8]) && socket.incoming == s[n + 8..]
    ensures !outcome.Received? ==> socket.incoming == []
  {
    id, length := messageId, 0;
    var word := new Byte[4];
    var ok := ReceiveBytes(socket, word);
    if !ok {
      return Closed, id, 0;
    }
    var messageIdLen := ReadLength(word[..]);
    if messageIdLen != 0 {
      var idArray := new Byte[messageIdLen];
      ok := ReceiveBytes(socket, idArray);
      if !ok {
        return Truncated, id, 0;
      }
      id := idArray[..];
    }
    ok := ReceiveBytes(socket, word);
    if !ok {
      return Truncated, id, 0;
    }
    length := ReadLength(word[..]);
    outcome := Received(Message([], []));
  }

  /** Whether a header is there; the message stands for any. */
  function HeaderOutcome(s: seq<Byte>): Outcome {
    if |s| < 4 then Closed
    else if |s| < ReadLength(s[..4]) + 8 then Truncated
    else Received(Message([], []))
  }

  /** Communicator::receive: Closed for the result false, Truncated for the exception. */
  method Receive(socket: Socket, messageId: seq<Byte>) returns (outcome: Outcome)
    modifies socket`incoming
    ensures Reading(outcome, socket.incoming) == Parse(old(socket.incoming), messageId)
  {
    hide ReadLength;
    ghost var s := socket.incoming;
    var header, id, length := ReceiveHeader(socket, messageId);
    if !header.Received? {
      return header;
    }
    var body := new Byte[length];
    var ok := ReceiveBytes(socket, body);
    if !ok {
      return Truncated;
    }
    outcome := Received(Message(id, body[..]));
    ghost var n := ReadLength(s[..4]) + 8;
    assert s[n..][..length] == s[n..n + length] && s[n..][length..] == s[n + length..];
  }

  // ---------------------------------------------------------------------
  // Round trips

  /** Where the parts of a concatenation are. */
  lemma Parts(a: seq<Byte>, b: seq<Byte>, c: seq<Byte>, d: seq<Byte>, e: seq<Byte>)
    ensures var s := a + b + c + d + e;
      var i := |a| + |b|;
      var j := i + |c|;
      && s[..|a|] == a && s[|a|..i] == b && s[i..j] == c && s[j..j + |d|] == d && s[j + |d|..] == e
  {
  }

  /** The number in four bytes, the most significant first. */
  function BigEndian(a: Byte, b: Byte, c: Byte, d: Byte): nat {
    a * 16777216 + b * 65536 + c * 256 + d
  }

  /** The bytes of a frame: the length of the identifier in network order, the identifier,
      the length of the body in network order, the body. */
  lemma WireBytes(m: Message)
    requires |m.id| <= 0xFFFF_FFFF && |m.body| <= 0xFFFF_FFFF
    ensures var f, n := Frame(m), |m.id|;
      && |f| == n + |m.body| + 8
      && BigEndian(f[0], f[1], f[2], f[3]) == n && f[4..n + 4] == m.id
      && BigEndian(f[n + 4], f[n + 5], f[n + 6], f[n + 7]) == |m.body| && f[n + 8..] == m.body
  {
    hide Length32, BigEndian;
    var f, n := Frame(m), |m.id|;
    FourBytes(n);
    FourBytes(|m.body|);
    var i, k := Length32(n), Length32(|m.body|);
    Parts(i, m.id, k, m.body, []);
    assert f + [] == f;
    assert f[..4] == i && f[n + 4..n + 8] == k;
    assert f[0] == i[0] && f[1] == i[1] && f[2] == i[2] && f[3] == i[3];
    assert f[n + 4] == k[0] && f[n + 5] == k[1] && f[n + 6] == k[2] && f[n + 7] == k[3];
  }

  lemma FourBytes(n: nat)
    requires n <= 0xFFFF_FFFF
    ensures var s := Length32(n); BigEndian(s[0], s[1], s[2], s[3]) == n
  {
    LengthRoundTrip(n);
    SmallLength(n);
  }

  lemma SmallLength(n: nat)
    requires n <= 0xFFFF_FFFF
    ensures n % LIMIT == n
  {
  }

  /** What a receiver makes of one frame, whatever follows it. */
  lemma ParseFrame(m: Message, rest: seq<Byte>, id0: seq<Byte>)
    requires |m.id| < LIMIT && |m.body| < LIMIT
    ensures Parse(Frame(m) + rest, id0) == Reading(Received(Message(if m.id == [] then id0 else m.id, m.body)), rest)
  {
    hide Length32, ReadLength;
    LengthRoundTrip(|m.id|);
    LengthRoundTrip(|m.body|);
    Parts(Length32(|m.id|), m.id, Length32(|m.body|), m.body, rest);
  }

  /** One frame is received as it was sent exactly when both lengths fit into 32 bits
      and an empty identifier is received into an empty one. */
  lemma RoundTripExactly(m: Message, rest: seq<Byte>, id0: seq<Byte>)
    ensures Parse(Frame(m) + rest, id0) == Reading(Received(m), rest)
       <==> |m.id| < LIMIT && |m.body| < LIMIT && (m.id == [] ==> id0 == [])
  {
    hide Length32, ReadLength;
    var n, k := |m.id|, |m.body|;
    LengthRoundTrip(n);
    LengthRoundTrip(k);
    Parts(Length32(n), m.id, Length32(k), m.body, rest);
    if n < LIMIT && k < LIMIT {
      ParseFrame(m, rest, id0);
    }
  }

  function Frames(ms: seq<Message>): seq<Byte> {
    if ms == [] then [] else Frame(ms[0]) + Frames(ms[1..])
  }

  /** What repeated receives with empty identifiers deliver, and how the last one
      ends. */
  function ParseAll(s: seq<Byte>): (seq<Message>, Outcome)
    decreases |s|
  {
    var r := Parse(s, []);
    if !r.outcome.Received? then ([], r.outcome)
    else
      var (ms, last) := ParseAll(r.rest);
      ([r.outcome.m] + ms, last)
  }

  ghost predicate Short(ms: seq<Message>) {
    forall i :: 0 <= i < |ms| ==> |ms[i].id| < LIMIT && |ms[i].body| < LIMIT
  }

  /** A sequence of messages is received as it was sent, and then the end of the
      stream. */
  lemma {:induction false} SequenceRoundTrip(ms: seq<Message>)
    requires Short(ms)
    ensures ParseAll(Frames(ms)) == (ms, Closed)
    decreases |ms|
  {
    hide Parse, Frame;
    if ms == [] {
      ClosedExactly([], []);
    } else {
      ParseFrame(ms[0], Frames(ms[1..]), []);
      SequenceRoundTrip(ms[1..]);
      assert ms == [ms[0]] + ms[1..];
    }
  }

  /** A stream that ends inside a frame reads as closed within the first four bytes and
      is an error anywhere later. */
  lemma TruncationExactly(m: Message, k: nat, id0: seq<Byte>)
    requires |m.id| < LIMIT && |m.body| < LIMIT && k < |Frame(m)|
    ensures Parse(Frame(m)[..k], id0) == Reading(if k < 4 then Closed else Truncated, [])
  {
    hide Length32, ReadLength;
    var f, s, n := Frame(m), Frame(m)[..k], |m.id|;
    LengthRoundTrip(n);
    LengthRoundTrip(|m.body|);
    Parts(Length32(n), m.id, Length32(|m.body|), m.body, []);
    assert f + [] == f;
    if k >= 4 {
      assert s[..4] == f[..4];
      if k >= n + 8 {
        assert s[n + 4..n + 8] == f[n + 4..n + 8];
      }
    }
  }

  /** Any stream at all: a receive reports the end only if fewer than four bytes were
      left, and in every other case without a message it is an error. */
  lemma ClosedExactly(s: seq<Byte>, id0: seq<Byte>)
    ensures Parse(s, id0).outcome.Closed? <==> |s| < 4
    ensures Parse(s, id0).outcome.Received? ==> |Parse(s, id0).rest| + 8 <= |s|
    ensures !Parse(s, id0).outcome.Received? ==> Parse(s, id0).rest == []
  {
  }

  lemma {:induction false} FramesSnoc(ms: seq<Message>, m: Message)
    ensures Frames(ms + [m]) == Frames(ms) + Frame(m)
  {
    hide Frame;
    if ms == [] {
      assert Frames([m]) == Frame(m) + Frames([]);
    } else {
      assert (ms + [m])[1..] == ms[1..] + [m];
      FramesSnoc(ms[1..], m);
      assert Frame(ms[0]) + (Frames(ms[1..]) + Frame(m)) == (Frame(ms[0]) + Frames(ms[1..])) + Frame(m);
    }
  }

  method SendAll(socket: Socket, ms: seq<Message>)
    modifies socket`outgoing
    ensures socket.outgoing == old(socket.outgoing) + Frames(ms)
  {
    hide Frame, Frames;
    var i := 0;
    assert ms[..0] == [];
    FramesNothing();
    while i < |ms|
      invariant 0 <= i <= |ms| && socket.outgoing == old(socket.outgoing) + Frames(ms[..i])
    {
      Send(socket, ms[i].id, ms[i].body);
      FramesSnoc(ms[..i], ms[i]);
      assert ms[..i + 1] == ms[..i] + [ms[i]];
      i := i + 1;
    }
    assert ms[..i] == ms;
  }

  /** Receive until that fails. */
  method ReceiveAll(socket: Socket) returns (received: seq<Message>, last: Outcome)
    modifies socket`incoming
    ensures (received, last) == ParseAll(old(socket.incoming))
  {
    hide Parse;
    received := [];
    assert [] + ParseAll(socket.incoming).0 == ParseAll(socket.incoming).0;
    while true
      invariant ParseAll(old(socket.incoming)) ==
                (received + ParseAll(socket.incoming).0, ParseAll(socket.incoming).1)
      decreases |socket.incoming|
    {
      ghost var s := socket.incoming;
      ghost var all := ParseAll(s);
      last := Receive(socket, []);
      if !last.Received? {
        assert received + [] == received;
        return;
      }
      assert all.0 == [last.m] + ParseAll(socket.incoming).0;
      assert received + ([last.m] + ParseAll(socket.incoming).0) == (received + [last.m]) + ParseAll(socket.incoming).0;
      received := received + [last.m];
    }
  }

  lemma FramesNothing()
    ensures Frames([]) == []
  {
  }

  /** End to end: whatever one side sends before it closes, the other receives, message
      by message, however the stream is cut into pieces. */
  method TransferAll(ms: seq<Message>) returns (received: seq<Message>, last: Outcome)
    requires Short(ms)
    ensures received == ms && last == Closed
  {
    var sender := new Socket([]);
    SendAll(sender, ms);
    assert [] + Frames(ms) == Frames(ms);
    var receiver := new Socket(sender.outgoing);
    received, last := ReceiveAll(receiver);
    SequenceRoundTrip(ms);
  }
}
