/** Length-prefixed packets over a byte stream: a four-byte big-endian signed
    length, then the body.  Reads of the stream come in chunks of any size. */
module Framing {
  type Byte = x: int | 0 <= x < 256

  const HALF := 0x8000_0000
  const FULL := 0x1_0000_0000

  /** The 32-bit conversion `int32(n)`: two's complement, wrapping. */
  function Wrap32(n: int): (v: int)
    ensures -HALF <= v < HALF
    ensures (n - v) % FULL == 0
    ensures -HALF <= n < HALF ==> v == n
  {
    (n + HALF) % FULL - HALF
  }

  function EncodeInt32(v: int): (b: seq<Byte>)
    ensures |b| == 4
  {
    var low := v % FULL;
    var mid := low / 256;
    var high := mid / 256;
    [high / 256, high % 256, mid % 256, low % 256]
  }

  function Unsigned(b: seq<Byte>): (u: int)
    requires |b| == 4
    ensures 0 <= u < FULL
  {
    var (b0: int, b1: int, b2: int, b3: int) := (b[0], b[1], b[2], b[3]);
    ((b0 * 256 + b1) * 256 + b2) * 256 + b3
  }

  function DecodeInt32(b: seq<Byte>): (v: int)
    requires |b| == 4
    ensures -HALF <= v < HALF
  {
    if Unsigned(b) < HALF then Unsigned(b) else Unsigned(b) - FULL
  }

  lemma Digits256(n: int)
    ensures n / 256 * 256 + n % 256 == n
  {
  }

  lemma UnsignedEncode(v: int)
    ensures Unsigned(EncodeInt32(v)) == v % FULL
  {
    var low := v % FULL;
    Digits256(low);
    Digits256(low / 256);
    Digits256(low / 256 / 256);
  }

  lemma DecodeEncode(v: int)
    ensures DecodeInt32(EncodeInt32(v)) == Wrap32(v)
  {
    UnsignedEncode(v);
  }

  lemma EncodeDecode(b: seq<Byte>)
    requires |b| == 4
    ensures EncodeInt32(DecodeInt32(b)) == b
  {
    assert DecodeInt32(b) % FULL == Unsigned(b);
  }

  /** The first byte is the most significant one. */
  lemma UnsignedWeights(b: seq<Byte>)
    requires |b| == 4
    ensures var (b0: int, b1: int, b2: int, b3: int) := (b[0], b[1], b[2], b[3]);
            Unsigned(b) == b0 * 0x100_0000 + b1 * 0x1_0000 + b2 * 0x100 + b3
  {
  }

  lemma EncodeWeights(v: int)
    ensures var b := EncodeInt32(v);
            var (b0: int, b1: int, b2: int, b3: int) := (b[0], b[1], b[2], b[3]);
            b0 * 0x100_0000 + b1 * 0x1_0000 + b2 * 0x100 + b3 == v % 0x1_0000_0000
  {
    UnsignedEncode(v);
    UnsignedWeights(EncodeInt32(v));
  }

  /** What a send writes: the length is truncated to 32 bits, the body is not. */
  function Frame(body: seq<Byte>): (s: seq<Byte>)
    ensures |s| == 4 + |body|
    ensures s[4..] == body
  {
    EncodeInt32(Wrap32(|body|)) + body
  }

  function Frames(bodies: seq<seq<Byte>>): seq<Byte> {
    if bodies == [] then [] else Frame(bodies[0]) + Frames(bodies[1..])
  }

  /** What one receive returns.  `Panic` is the allocation of a buffer of
      negative size, `PeerClose` the answer to a body of no bytes, `Broken` a
      read that failed. */
  datatype Packet = Body(bytes: seq<Byte>) | PeerClose | Panic | Broken

  datatype Parsed = Parsed(packet: Packet, rest: seq<Byte>)

  /** What one receive makes of the stream when no read fails before its end. */
  function Parse(s: seq<Byte>): Parsed {
    if |s| < 4 then Parsed(Broken, []) else
    var size := DecodeInt32(s[..4]);
    if size < 0 then Parsed(Panic, s[4..])
    else if size == 0 then Parsed(PeerClose, s[4..])
    else if |s| < 4 + size then Parsed(Broken, [])
    else Parsed(Body(s[4..4 + size]), s[4 + size..])
  }

  /** What the receiver gets for a body. */
  function Received(body: seq<Byte>): Packet {
    if body == [] then PeerClose else Body(body)
  }

  lemma ParseFrame(body: seq<Byte>, rest: seq<Byte>)
    requires |body| < HALF
    ensures Parse(Frame(body) + rest) == Parsed(Received(body), rest)
  {
    var s := Frame(body) + rest;
    DecodeEncode(|body|);
    assert s[..4] == EncodeInt32(|body|);
    assert s[4..4 + |body|] == body && s[4 + |body|..] == rest;
  }

  /** A body comes back as it was sent exactly when it is not empty and its
      length fits the signed 32-bit header. */
  lemma RoundTrip(body: seq<Byte>, rest: seq<Byte>)
    ensures Parse(Frame(body) + rest) == Parsed(Body(body), rest) <==> 0 < |body| < HALF
  {
    if |body| < HALF {
      ParseFrame(body, rest);
    } else {
      var s := Frame(body) + rest;
      DecodeEncode(Wrap32(|body|));
      assert s[..4] == EncodeInt32(Wrap32(|body|));
      assert Wrap32(|body|) < |body|;
    }
  }

  /** A body of 2^31 to 2^32 - 1 bytes is announced by a negative length. */
  lemma LongBodyPanics(body: seq<Byte>, rest: seq<Byte>)
    requires HALF <= |body| < FULL
    ensures Parse(Frame(body) + rest).packet == Panic
  {
    var s := Frame(body) + rest;
    DecodeEncode(Wrap32(|body|));
    assert s[..4] == EncodeInt32(Wrap32(|body|));
  }

  /** A stream that ends inside a frame is never taken for a whole body. */
  lemma CutFrame(body: seq<Byte>, k: nat)
    requires 0 < |body| < HALF && k < |Frame(body)|
    ensures Parse(Frame(body)[..k]) == Parsed(Broken, [])
  {
    DecodeEncode(|body|);
    if 4 <= k {
      assert Frame(body)[..k][..4] == EncodeInt32(|body|);
    }
  }

  lemma SameRemainder(n: int, v: int)
    requires (n - v) % FULL == 0
    ensures n % FULL == v % FULL
  {
  }

  lemma HeaderWeights(body: seq<Byte>)
    ensures var f := Frame(body);
            var (b0: int, b1: int, b2: int, b3: int) := (f[0], f[1], f[2], f[3]);
            b0 * 0x100_0000 + b1 * 0x1_0000 + b2 * 0x100 + b3 == |body| % 0x1_0000_0000
  {
    var v := Wrap32(|body|);
    EncodeWeights(v);
    SameRemainder(|body|, v);
  }

  /** Which streams give a body, and which: those that begin with its frame. */
  lemma ParseBody(s: seq<Byte>, body: seq<Byte>, rest: seq<Byte>)
    ensures Parse(s) == Parsed(Body(body), rest) <==> 0 < |body| < HALF && s == Frame(body) + rest
  {
    if Parse(s) == Parsed(Body(body), rest) {
      EncodeDecode(s[..4]);
      assert s == s[..4] + s[4..4 + |body|] + s[4 + |body|..];
    }
    if 0 < |body| < HALF && s == Frame(body) + rest {
      ParseFrame(body, rest);
    }
  }

  /** Which streams give what else. */
  lemma ParseOther(s: seq<Byte>)
    ensures Parse(s).packet == Panic <==> 4 <= |s| && 128 <= s[0]
    ensures Parse(s).packet == PeerClose <==> 4 <= |s| && s[..4] == [0, 0, 0, 0]
    ensures Parse(s).packet == Panic || Parse(s).packet == PeerClose ==> Parse(s).rest == s[4..]
    ensures Parse(s).packet == Broken ==> Parse(s).rest == []
  {
    if 4 <= |s| {
      UnsignedWeights(s[..4]);
    }
  }

  function ParseMany(s: seq<Byte>, count: nat): (seq<Packet>, seq<Byte>)
    decreases count
  {
    if count == 0 then ([], s) else
    var first := Parse(s);
    var others := ParseMany(first.rest, count - 1);
    ([first.packet] + others.0, others.1)
  }

  function ReceivedAll(bodies: seq<seq<Byte>>): (ps: seq<Packet>)
    ensures |ps| == |bodies|
  {
    seq(|bodies|, i requires 0 <= i < |bodies| => Received(bodies[i]))
  }

  lemma ReceivedFirst(bodies: seq<seq<Byte>>)
    requires bodies != []
    ensures ReceivedAll(bodies) == [Received(bodies[0])] + ReceivedAll(bodies[1..])
  {
  }

  lemma ParseManyFrame(body: seq<Byte>, rest: seq<Byte>, count: nat)
    requires |body| < HALF
    ensures ParseMany(Frame(body) + rest, count + 1)
         == ([Received(body)] + ParseMany(rest, count).0, ParseMany(rest, count).1)
  {
    ParseFrame(body, rest);
  }

  lemma FramesFirst(bodies: seq<seq<Byte>>, rest: seq<Byte>)
    requires bodies != []
    ensures Frames(bodies) + rest == Frame(bodies[0]) + (Frames(bodies[1..]) + rest)
  {
  }

  lemma {:induction false} ParseFrames(bodies: seq<seq<Byte>>, rest: seq<Byte>)
    requires forall b :: b in bodies ==> |b| < HALF
    ensures ParseMany(Frames(bodies) + rest, |bodies|) == (ReceivedAll(bodies), rest)
  {
    if bodies == [] {
      assert Frames(bodies) + rest == rest;
    } else {
      var others := bodies[1..];
      FramesFirst(bodies, rest);
      ParseManyFrame(bodies[0], Frames(others) + rest, |others|);
      ParseFrames(others, rest);
      ReceivedFirst(bodies);
    }
  }

  lemma {:induction false} FramesStart(bodies: seq<seq<Byte>>, i: nat)
    requires i < |bodies|
    ensures Frames(bodies[..i + 1]) == Frame(bodies[0]) + Frames(bodies[1..][..i])
  {
    assert bodies[..i + 1][1..] == bodies[1..][..i];
  }

  lemma {:induction false} NothingLeft(count: nat)
    ensures |ParseMany([], count).0| == count
    ensures forall i :: 0 <= i < count ==> ParseMany([], count).0[i] == Broken
  {
    if count != 0 {
      NothingLeft(count - 1);
      assert Parse([]) == Parsed(Broken, []);
    }
  }

  /** What is received for each body when the stream ends after k bytes: the
      bodies whose frames end by then, and failures after them. */
  function Arriving(bodies: seq<seq<Byte>>, k: int, i: nat): Packet
    requires i < |bodies|
  {
    if |Frames(bodies[..i + 1])| <= k then Body(bodies[i]) else Broken
  }

  lemma ArrivingLater(bodies: seq<seq<Byte>>, k: int, i: nat)
    requires i + 1 < |bodies|
    ensures Arriving(bodies, k, i + 1) == Arriving(bodies[1..], k - |Frame(bodies[0])|, i)
  {
    FramesStart(bodies, i + 1);
  }

  lemma ArrivingFirst(bodies: seq<seq<Byte>>, k: int)
    requires bodies != []
    ensures Arriving(bodies, k, 0) == if |Frame(bodies[0])| <= k then Body(bodies[0]) else Broken
    ensures k < |Frame(bodies[0])| ==> forall i :: 0 <= i < |bodies| ==> Arriving(bodies, k, i) == Broken
  {
    FramesStart(bodies, 0);
    assert bodies[1..][..0] == [];
    if k < |Frame(bodies[0])| {
      forall i | 0 <= i < |bodies| ensures Arriving(bodies, k, i) == Broken {
        FramesStart(bodies, i);
      }
    }
  }

  function ArrivingAll(bodies: seq<seq<Byte>>, k: int): (ps: seq<Packet>)
    ensures |ps| == |bodies|
  {
    seq(|bodies|, i requires 0 <= i < |bodies| => Arriving(bodies, k, i))
  }

  lemma ArrivingAllFirst(bodies: seq<seq<Byte>>, k: int)
    requires bodies != [] && |Frame(bodies[0])| <= k
    ensures ArrivingAll(bodies, k) == [Body(bodies[0])] + ArrivingAll(bodies[1..], k - |Frame(bodies[0])|)
  {
    var more := [Body(bodies[0])] + ArrivingAll(bodies[1..], k - |Frame(bodies[0])|);
    ArrivingFirst(bodies, k);
    forall i | 0 <= i < |bodies| ensures ArrivingAll(bodies, k)[i] == more[i] {
      if i != 0 {
        ArrivingLater(bodies, k, i - 1);
      }
    }
  }

  lemma CutInFirst(bodies: seq<seq<Byte>>, k: nat)
    requires bodies != [] && 0 < |bodies[0]| < HALF && k < |Frame(bodies[0])|
    ensures ParseMany(Frames(bodies)[..k], |bodies|).0 == ArrivingAll(bodies, k)
  {
    ArrivingFirst(bodies, k);
    CutFrame(bodies[0], k);
    assert Frames(bodies)[..k] == Frame(bodies[0])[..k];
    NothingLeft(|bodies| - 1);
  }

  lemma CutLater(first: seq<Byte>, others: seq<Byte>, k: nat)
    requires |first| <= k <= |first + others|
    ensures (first + others)[..k] == first + others[..k - |first|]
  {
  }

  lemma {:induction false} CutStream(bodies: seq<seq<Byte>>, k: nat)
    requires forall b :: b in bodies ==> 0 < |b| < HALF
    requires k <= |Frames(bodies)|
    ensures ParseMany(Frames(bodies)[..k], |bodies|).0 == ArrivingAll(bodies, k)
  {
    if bodies != [] {
      var first, others := Frame(bodies[0]), bodies[1..];
      if k < |first| {
        CutInFirst(bodies, k);
      } else {
        var left := k - |first|;
        CutLater(first, Frames(others), k);
        ParseManyFrame(bodies[0], Frames(others)[..left], |others|);
        CutStream(others, left);
        ArrivingAllFirst(bodies, k);
      }
    }
  }

  /** Two lists of bodies of the same number never share a stream. */
  lemma FramesUnambiguous(a: seq<seq<Byte>>, b: seq<seq<Byte>>, x: seq<Byte>, y: seq<Byte>)
    requires forall s :: s in a ==> |s| < HALF
    requires forall s :: s in b ==> |s| < HALF
    requires |a| == |b| && Frames(a) + x == Frames(b) + y
    ensures a == b && x == y
  {
    ParseFrames(a, x);
    ParseFrames(b, y);
    forall i | 0 <= i < |a| ensures a[i] == b[i] {
      assert Received(a[i]) == ReceivedAll(a)[i] == ReceivedAll(b)[i] == Received(b[i]);
    }
  }

  /** A buffer with `bytes` written over it from `start`. */
  function Over(was: seq<Byte>, start: nat, bytes: seq<Byte>): (now: seq<Byte>)
    requires start + |bytes| <= |was|
    ensures |now| == |was|
  {
    was[..start] + bytes + was[start + |bytes|..]
  }

  /** The first n bytes of a stream are taken into a buffer, from its place
      `start` on, and the others are left. */
  ghost predicate Took(was: seq<Byte>, stream: seq<Byte>, start: nat, n: nat, now: seq<Byte>, left: seq<Byte>) {
    && n <= |stream| && start + n <= |was|
    && now == Over(was, start, stream[..n])
    && left == stream[n..]
  }

  lemma TookMore(was: seq<Byte>, stream: seq<Byte>, got: nat, mid: seq<Byte>, left: seq<Byte>,
                 n: nat, now: seq<Byte>, rest: seq<Byte>)
    requires Took(was, stream, 0, got, mid, left) && Took(mid, left, got, n, now, rest)
    ensures Took(was, stream, 0, got + n, now, rest)
  {
    assert stream[..got + n] == stream[..got] + left[..n];
  }

  method Fill(buf: array<Byte>, start: nat, bytes: seq<Byte>)
    requires start + |bytes| <= buf.Length
    modifies buf
    ensures buf[..] == Over(old(buf[..]), start, bytes)
  {
    ghost var was := buf[..];
    for i := 0 to |bytes|
      invariant forall k :: 0 <= k < buf.Length ==>
        buf[k] == if start <= k < start + i then bytes[k - start] else was[k]
    {
      buf[start + i] := bytes[i];
    }
  }

  /** One end of a connection.  `steady` says that a write never fails and a
      read fails only once nothing is left to read. */
  class Conn {
    var incoming: seq<Byte>
    var outgoing: seq<Byte>
    const steady: bool

    constructor (incoming: seq<Byte>, steady: bool)
      ensures this.incoming == incoming && this.steady == steady && outgoing == []
    {
      this.incoming, this.steady, outgoing := incoming, steady, [];
    }

    /** A read into `buf[start..]`: some bytes, at least one unless there is no
        room for any, or an error that takes nothing from the stream. */
    method Read(buf: array<Byte>, start: nat) returns (n: nat, ok: bool)
      requires start <= buf.Length
      modifies this`incoming, buf
      ensures Took(old(buf[..]), old(incoming), start, n, buf[..], incoming)
      ensures ok ==> (n == 0 <==> start == buf.Length)
      ensures !ok ==> n == 0 && start < buf.Length
      ensures steady && !ok ==> old(incoming) == []
    {
      n, ok := 0, true;
      ghost var was, stream := buf[..], incoming;
      if start == buf.Length {
        assert was == Over(was, start, stream[..n]);
        return;
      }
      var fails: bool := *;
      if incoming == [] || (fails && !steady) {
        ok := false;
        assert was == Over(was, start, stream[..n]);
        return;
      }
      var wanted: nat := *;
      n := if 1 <= wanted <= |incoming| && start + wanted <= buf.Length then wanted else 1;
      Fill(buf, start, incoming[..n]);
      incoming := incoming[n..];
    }

    /** A failed write may have sent part of its bytes. */
    method Write(bytes: seq<Byte>) returns (ok: bool)
      modifies this`outgoing
      ensures old(outgoing) <= outgoing <= old(outgoing) + bytes
      ensures ok <==> outgoing == old(outgoing) + bytes
      ensures steady ==> ok
    {
      var sent: nat := *;
      if !steady && 0 <= sent < |bytes| {
        outgoing := outgoing + bytes[..sent];
        ok := false;
      } else {
        outgoing := outgoing + bytes;
        ok := true;
      }
    }
  }

  datatype ReadError = NoError | BufferTooSmall | ReadFailed

  /** Reads into `buf` until at least `size` bytes are there; one read may bring
      more than is still asked for, up to the length of the buffer. */
  method ReadLoop(conn: Conn, buf: array<Byte>, size: int) returns (n: nat, ok: bool)
    requires size <= buf.Length
    modifies conn`incoming, buf
    ensures Took(old(buf[..]), old(conn.incoming), 0, n, buf[..], conn.incoming)
    ensures ok ==> size <= n && (n == 0 <==> buf.Length == 0)
    ensures !ok ==> n < buf.Length && (n < size || n == 0) && (conn.steady ==> conn.incoming == [])
  {
    ghost var was, stream := buf[..], conn.incoming;
    n := 0;
    while true
      invariant n == 0 || n < size
      invariant Took(was, stream, 0, n, buf[..], conn.incoming)
      decreases buf.Length - n
    {
      var k;
      ghost var mid, left := buf[..], conn.incoming;
      k, ok := conn.Read(buf, n);
      TookMore(was, stream, n, mid, left, k, buf[..], conn.incoming);
      if !ok {
        return;
      }
      n := n + k;
      if k == 0 || n >= size {
        return;
      }
    }
  }

  method NetRecvTimeout(conn: Conn, buf: array<Byte>, size: int) returns (n: int, err: ReadError)
    modifies conn`incoming, buf
    ensures buf.Length < size <==> err == BufferTooSmall
    ensures err == BufferTooSmall ==> n == -1 && conn.incoming == old(conn.incoming) && buf[..] == old(buf[..])
    ensures err != BufferTooSmall ==> 0 <= n && Took(old(buf[..]), old(conn.incoming), 0, n, buf[..], conn.incoming)
    ensures err == NoError ==> size <= n && (n == 0 <==> buf.Length == 0)
    ensures err == ReadFailed ==> n < buf.Length && (n < size || n == 0) && (conn.steady ==> conn.incoming == [])
  {
    if buf.Length < size {
      return -1, BufferTooSmall;
    }
    var ok;
    n, ok := ReadLoop(conn, buf, size);
    err := if ok then NoError else ReadFailed;
  }

  /** The library's fixed-size read of the header: all four bytes or an error. */
  method ReadHeader(conn: Conn) returns (size: int, ok: bool)
    modifies conn`incoming
    ensures ok ==>
      && 4 <= |old(conn.incoming)| && size == DecodeInt32(old(conn.incoming)[..4])
      && conn.incoming == old(conn.incoming)[4..]
    ensures conn.steady ==> ok == (4 <= |old(conn.incoming)|)
    ensures conn.steady && !ok ==> conn.incoming == []
  {
    var buf := new Byte[4](_ => 0);
    ghost var stream := conn.incoming;
    ghost var was := buf[..];
    var got := 0;
    size := 0;
    while got < 4
      invariant 0 <= got <= 4 && Took(was, stream, 0, got, buf[..], conn.incoming)
    {
      var n;
      ghost var mid, left := buf[..], conn.incoming;
      n, ok := conn.Read(buf, got);
      TookMore(was, stream, got, mid, left, n, buf[..], conn.incoming);
      if !ok {
        return;
      }
      got := got + n;
    }
    assert buf[..] == stream[..4];
    size := DecodeInt32(buf[..]);
    ok := true;
  }

  /** On a steady connection a receive is `Parse`, however the reads are cut;
      on any connection a body that is returned is the one the stream held. */
  method CommonRecvPacket(conn: Conn) returns (r: Packet)
    modifies conn`incoming
    ensures conn.steady ==> Parsed(r, conn.incoming) == Parse(old(conn.incoming))
    ensures r != Broken ==> Parsed(r, conn.incoming) == Parse(old(conn.incoming))
  {
    ghost var stream := conn.incoming;
    var size, ok := ReadHeader(conn);
    if !ok {
      return Broken;
    }
    if size < 0 {
      return Panic;
    }
    var bytes := new Byte[size](_ => 0);
    var n, err := NetRecvTimeout(conn, bytes, size);
    if err != NoError {
      return Broken;
    }
    if n == 0 {
      return PeerClose;
    }
    ghost var end := 4 + size;
    assert bytes[..] == stream[4..][..size] == stream[4..end];
    return Body(bytes[..]);
  }

  method CommonSendPacket(conn: Conn, body: seq<Byte>) returns (ok: bool)
    modifies conn`outgoing
    ensures old(conn.outgoing) <= conn.outgoing <= old(conn.outgoing) + Frame(body)
    ensures ok <==> conn.outgoing == old(conn.outgoing) + Frame(body)
    ensures conn.steady ==> ok
  {
    var size := Wrap32(|body|);
    assert conn.outgoing + EncodeInt32(size) + body == conn.outgoing + Frame(body);
    ok := conn.Write(EncodeInt32(size));
    if ok {
      ok := conn.Write(body);
    }
  }

  lemma {:induction false} FramesSnoc(bodies: seq<seq<Byte>>, body: seq<Byte>)
    ensures Frames(bodies + [body]) == Frames(bodies) + Frame(body)
  {
    if bodies == [] {
      assert Frames([body]) == Frame(body) + Frames([]);
    } else {
      FramesSnoc(bodies[1..], body);
      assert (bodies + [body])[1..] == bodies[1..] + [body];
    }
  }

  lemma {:induction false} ParseManySnoc(s: seq<Byte>, count: nat)
    decreases count
    ensures ParseMany(s, count + 1)
         == (ParseMany(s, count).0 + [Parse(ParseMany(s, count).1).packet], Parse(ParseMany(s, count).1).rest)
  {
    if count != 0 {
      var head, t := [Parse(s).packet], Parse(s).rest;
      ParseManySnoc(t, count - 1);
      var before, after := ParseMany(t, count - 1), ParseMany(t, count);
      assert ParseMany(s, count + 1) == (head + after.0, after.1);
      assert ParseMany(s, count) == (head + before.0, before.1);
      assert head + (before.0 + [Parse(before.1).packet]) == head + before.0 + [Parse(before.1).packet];
    } else {
      assert ParseMany(s, 1).0 == [Parse(s).packet] + ParseMany(Parse(s).rest, 0).0;
      assert ParseMany(s, 1).0 == ParseMany(s, 0).0 + [Parse(s).packet];
    }
  }

  method SendAll(conn: Conn, bodies: seq<seq<Byte>>)
    requires conn.steady
    modifies conn`outgoing
    ensures conn.outgoing == old(conn.outgoing) + Frames(bodies)
  {
    for i := 0 to |bodies|
      invariant conn.outgoing == old(conn.outgoing) + Frames(bodies[..i])
    {
      var ok := CommonSendPacket(conn, bodies[i]);
      FramesSnoc(bodies[..i], bodies[i]);
      assert bodies[..i + 1] == bodies[..i] + [bodies[i]];
    }
    assert bodies[..|bodies|] == bodies;
  }

  method ReceiveMany(conn: Conn, count: nat) returns (packets: seq<Packet>)
    requires conn.steady
    modifies conn`incoming
    ensures (packets, conn.incoming) == ParseMany(old(conn.incoming), count)
  {
    packets := [];
    for i := 0 to count
      invariant (packets, conn.incoming) == ParseMany(old(conn.incoming), i)
    {
      var r := CommonRecvPacket(conn);
      ParseManySnoc(old(conn.incoming), i);
      packets := packets + [r];
    }
  }

  /** Whatever was sent over a wire that loses nothing arrives, in order, and
      the stream is used up to the last byte. */
  method Exchange(bodies: seq<seq<Byte>>, rest: seq<Byte>) returns (packets: seq<Packet>, left: seq<Byte>)
    requires forall b :: b in bodies ==> 0 < |b| < HALF
    ensures |packets| == |bodies| && forall i :: 0 <= i < |bodies| ==> packets[i] == Body(bodies[i])
    ensures left == rest
  {
    var sender := new Conn([], true);
    SendAll(sender, bodies);
    var receiver := new Conn(sender.outgoing + rest, true);
    packets := ReceiveMany(receiver, |bodies|);
    left := receiver.incoming;
    assert sender.outgoing == Frames(bodies);
    ParseFrames(bodies, rest);
    forall i | 0 <= i < |bodies| ensures packets[i] == Body(bodies[i]) {
      assert bodies[i] in bodies;
    }
  }
}
