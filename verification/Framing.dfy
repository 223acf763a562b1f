/** Length-prefixed packets: the writer, the parser, and the server connection that feeds the parser
    whatever the socket delivers. The point: how the byte stream was cut does not matter. */
module Framing {
  import opened Basics
  import opened NetworkBuffers

  datatype PacketType = PACKET_LESS | PACKET_FULL | PACKET_ERR

  // ----- numbers in network byte order -----

  function BigEndian(v: seq<byte>): nat {
    if v == [] then 0 else BigEndian(v[..|v| - 1]) * 256 + v[|v| - 1]
  }

  function ToBigEndian(n: nat, w: nat): (r: seq<byte>)
    ensures |r| == w
  {
    if w == 0 then [] else ToBigEndian(n / 256, w - 1) + [n % 256]
  }

  function Pow256(w: nat): nat {
    if w == 0 then 1 else 256 * Pow256(w - 1)
  }

  lemma {:induction false} BigEndianRoundTrip(n: nat, w: nat)
    requires n < Pow256(w)
    ensures BigEndian(ToBigEndian(n, w)) == n
  {
    if w > 0 {
      BigEndianRoundTrip(n / 256, w - 1);
      var r := ToBigEndian(n, w);
      assert r[..w - 1] == ToBigEndian(n / 256, w - 1);
    }
  }

  // ----- one packet -----

  /** The kind of framing: a prefix of width bytes holding the total length, and its limits. */
  datatype Protocol = Protocol(width: nat, minLength: nat, maxLength: nat) {
    predicate Ok() {
      (width == 1 || width == 2 || width == 4) && minLength < UINT32 && maxLength < UINT32
    }

    function Least(): nat {
      if minLength < width then width else minLength
    }
  }

  datatype Frame = Less | Bad | Full(body: seq<byte>, rest: seq<byte>)

  /** What parseBuffer makes of a flat byte sequence. */
  function ParseFrame(p: Protocol, v: seq<byte>): Frame
    requires p.Ok()
  {
    if |v| < p.width then Less
    else
      var length := BigEndian(v[..p.width]);
      if length < p.Least() || length > p.maxLength then Bad
      else if |v| < length then Less
      else Full(v[p.width..length], v[length..])
  }

  /** The prefix is there, and its value is beyond the limits. */
  predicate OutOfLimits(p: Protocol, v: seq<byte>) {
    |v| >= p.width && var n := BigEndian(v[..p.width]); n < p.width || n < p.minLength || n > p.maxLength
  }

  /** Which bytes are a packet, which are not yet, and which never will be. */
  lemma FrameDecided(p: Protocol, v: seq<byte>)
    requires p.Ok()
    ensures ParseFrame(p, v).Bad? <==> OutOfLimits(p, v)
    ensures ParseFrame(p, v).Less? <==> |v| < p.width || (!OutOfLimits(p, v) && |v| < BigEndian(v[..p.width]))
    ensures ParseFrame(p, v).Full? ==>
              var n := BigEndian(v[..p.width]);
              p.width <= n <= |v| && ParseFrame(p, v) == Full(v[p.width..n], v[n..])
  {
  }

  /** More bytes behind a decision change nothing but what is left over. */
  lemma ParseFrameExtends(p: Protocol, a: seq<byte>, b: seq<byte>)
    requires p.Ok()
    ensures ParseFrame(p, a).Bad? ==> ParseFrame(p, a + b).Bad?
    ensures ParseFrame(p, a).Full? ==>
              ParseFrame(p, a + b) == Full(ParseFrame(p, a).body, ParseFrame(p, a).rest + b)
  {
    if |a| >= p.width {
      assert (a + b)[..p.width] == a[..p.width];
      var length := BigEndian(a[..p.width]);
      if p.Least() <= length <= p.maxLength && length <= |a| {
        assert (a + b)[p.width..length] == a[p.width..length];
        assert (a + b)[length..] == a[length..] + b;
      }
    }
  }

  method GetValue(b: NetworkBuffer, w: nat) returns (value: nat)
    requires b.Valid() && (w == 1 || w == 2 || w == 4)
    ensures value == if |b.View()| < w then 0 else BigEndian(b.View()[..w])
  {
    var ok, h := b.GetHeader(w);
    if !ok {
      return 0;
    }
    if w == 2 {
      value := h[0] as int * 256 + h[1];
    } else if w == 4 {
      value := ((h[0] as int * 256 + h[1]) * 256 + h[2]) * 256 + h[3];
    } else {
      value := h[0];
    }
    BigEndianWide(h);
  }

  lemma BigEndianWide(h: seq<byte>)
    ensures |h| == 1 ==> BigEndian(h) == h[0]
    ensures |h| == 2 ==> BigEndian(h) == h[0] as int * 256 + h[1]
    ensures |h| == 4 ==> BigEndian(h) == ((h[0] as int * 256 + h[1]) * 256 + h[2]) * 256 + h[3]
  {
    if |h| == 1 {
      assert h[..0] == [];
    } else if |h| == 2 {
      BigEndianWide(h[..1]);
    } else if |h| == 4 {
      assert h[..3][..2] == h[..2];
      BigEndianWide(h[..2]);
    }
  }

  /** parseBuffer<T>, on the segmented buffer. */
  method ParseBuffer(b: NetworkBuffer, p: Protocol) returns (ret: PacketType, body: seq<byte>)
    requires b.Valid() && p.Ok()
    modifies b, b.Owned()
    ensures b.Valid() && b.Owned() <= old(b.Owned())
    ensures match ParseFrame(p, old(b.View()))
            case Less => ret == PACKET_LESS && b.View() == old(b.View())
            case Bad => ret == PACKET_ERR && b.View() == old(b.View())
            case Full(x, rest) => ret == PACKET_FULL && body == x && b.View() == rest
  {
    body := [];
    var size := b.GetBufferLength();
    if size < p.width {
      return PACKET_LESS, [];
    }
    var minLength := if p.minLength < p.width then p.width else p.minLength;
    var length := GetValue(b, p.width);
    if length < minLength || length > p.maxLength {
      return PACKET_ERR, [];
    }
    if size < length {
      return PACKET_LESS, [];
    }
    body := TakeBody(b, p.width, length);
    ret := PACKET_FULL;
  }

  /** The end of parseBuffer: step over the prefix, read the body, step over it. */
  method TakeBody(b: NetworkBuffer, w: nat, length: nat) returns (body: seq<byte>)
    requires b.Valid() && w <= length <= |b.View()| && length < UINT32
    modifies b, b.Owned()
    ensures b.Valid() && b.Owned() <= old(b.Owned())
    ensures body == old(b.View())[w..length] && b.View() == old(b.View())[length..]
  {
    SliceTwice(b.View(), w, length);
    var moved := b.Skip(w);
    body := Consume(b, length - w);
  }

  lemma SliceTwice(v: seq<byte>, w: nat, length: nat)
    requires w <= length <= |v|
    ensures v[w..][..length - w] == v[w..length]
    ensures v[w..][length - w..] == v[length..]
  {
  }

  /** Reads n bytes and steps over them. */
  method Consume(b: NetworkBuffer, n: nat) returns (body: seq<byte>)
    requires b.Valid() && n <= |b.View()| && n < UINT32
    modifies b, b.Owned()
    ensures b.Valid() && b.Owned() <= old(b.Owned())
    ensures body == old(b.View())[..n] && b.View() == old(b.View())[n..]
  {
    var ok;
    ok, body := b.GetHeader(n);
    var moved := b.Skip(n);
  }

  // ----- all packets -----

  /** The packets at the front of v, and the incomplete or malformed rest. */
  function Frames(p: Protocol, v: seq<byte>): (r: (seq<seq<byte>>, seq<byte>))
    requires p.Ok()
    decreases |v|
  {
    match ParseFrame(p, v)
    case Full(body, rest) => var t := Frames(p, rest); ([body] + t.0, t.1)
    case _ => ([], v)
  }

  lemma {:induction false} FramesSplit(p: Protocol, a: seq<byte>, b: seq<byte>)
    requires p.Ok()
    ensures var (out, rest) := Frames(p, a);
            var (out', rest') := Frames(p, rest + b);
            Frames(p, a + b) == (out + out', rest')
    decreases |a|
  {
    ParseFrameExtends(p, a, b);
    match ParseFrame(p, a)
    case Full(body, rest) =>
      FramesSplit(p, rest, b);
      var (out, left) := Frames(p, rest);
      assert ([body] + out) + Frames(p, left + b).0 == [body] + (out + Frames(p, left + b).0);
    case _ =>
      assert [] + Frames(p, a + b).0 == Frames(p, a + b).0;
  }

  // ----- the connection -----

  /** header: bytes of the first-packet header still to skip; out: the packets handed on. */
  datatype Conn = Conn(header: nat, pending: seq<byte>, out: seq<seq<byte>>)

  /** What parseProtocol does to a connection. */
  function Parse(p: Protocol, c: Conn): Conn
    requires p.Ok()
  {
    if c.header > |c.pending| then Conn(c.header - |c.pending|, [], c.out)
    else
      var (out, rest) := Frames(p, c.pending[c.header..]);
      Conn(0, rest, c.out + out)
  }

  function Fed(c: Conn, bytes: seq<byte>): Conn {
    c.(pending := c.pending + bytes)
  }

  /** A malformed packet is at the front. */
  predicate Malformed(p: Protocol, c: Conn)
    requires p.Ok()
  {
    c.header == 0 && c.pending != [] && ParseFrame(p, c.pending).Bad?
  }

  /** Parsing early, then again once more bytes have come, is parsing late. */
  lemma ParseSplit(p: Protocol, c: Conn, b: seq<byte>)
    requires p.Ok()
    ensures Parse(p, Fed(Parse(p, c), b)) == Parse(p, Fed(c, b))
  {
    if c.header > |c.pending| {
      assert [] + b == b;
      if c.header <= |c.pending + b| {
        assert (c.pending + b)[c.header..] == b[c.header - |c.pending|..];
      }
    } else {
      var v := c.pending[c.header..];
      assert (c.pending + b)[c.header..] == v + b;
      FramesSplit(p, v, b);
      var (out, rest) := Frames(p, v);
      assert (rest + b)[0..] == rest + b;
      assert c.out + (out + Frames(p, rest + b).0) == (c.out + out) + Frames(p, rest + b).0;
    }
  }

  /** Once malformed, always malformed: no later byte produces another packet. */
  lemma MalformedForever(p: Protocol, c: Conn, b: seq<byte>)
    requires p.Ok() && Malformed(p, c)
    ensures Malformed(p, Fed(c, b)) && Parse(p, Fed(c, b)) == Fed(c, b)
  {
    ParseFrameExtends(p, c.pending, b);
    assert (c.pending + b)[0..] == c.pending + b;
    assert c.out + [] == c.out;
  }

  lemma MalformedIff(p: Protocol, c: Conn)
    requires p.Ok()
    ensures Malformed(p, c) <==> c.header == 0 && OutOfLimits(p, c.pending)
  {
    FrameDecided(p, c.pending);
  }

  const BUFFER_SIZE := 8192

  /** What one recv() on the socket returns: bytes, no data for now, or the end of the connection. */
  datatype Received = Data(bytes: seq<byte>) | Pending | Closed

  ghost predicate Deliverable(script: seq<Received>) {
    forall i :: 0 <= i < |script| && script[i].Data? ==> 0 < |script[i].bytes| <= BUFFER_SIZE
  }

  /** The bytes one recvTcp takes, and whether it ends because the connection did. */
  function Taken(script: seq<Received>, count: nat): (seq<byte>, bool)
    decreases |script|
  {
    if script == [] || script[0].Pending? then ([], false)
    else if script[0].Closed? then ([], true)
    else if |script[0].bytes| < BUFFER_SIZE || count + 1 > 100 then (script[0].bytes, false)
    else var t := Taken(script[1..], count + 1); (script[0].bytes + t.0, t.1)
  }

  /** What reads of a full buffer each bring. */
  function AllData(script: seq<Received>): seq<byte>
    requires forall i :: 0 <= i < |script| ==> script[i].Data?
  {
    if script == [] then [] else script[0].bytes + AllData(script[1..])
  }

  predicate FullReads(script: seq<Received>) {
    forall i :: 0 <= i < |script| ==> script[i].Data? && |script[i].bytes| == BUFFER_SIZE
  }

  /** One recvTcp reads on exactly as long as its reads are full, and 101 times at most: what comes after that
      is left to the next. */
  lemma {:induction false} ReadsTaken(full: seq<Received>, rest: seq<Received>, count: nat)
    requires FullReads(full) && count + |full| <= 101
    ensures var (bytes, over) := Taken(full + rest, count);
            if count + |full| == 101 && full != [] then (bytes, over) == (AllData(full), false)
            else if rest == [] || rest[0].Pending? then (bytes, over) == (AllData(full), false)
            else if rest[0].Closed? then (bytes, over) == (AllData(full), true)
            else if |rest[0].bytes| < BUFFER_SIZE then (bytes, over) == (AllData(full) + rest[0].bytes, false)
            else true
  {
    if full == [] {
      assert full + rest == rest;
      if rest != [] && rest[0].Data? { assert [] + rest[0].bytes == rest[0].bytes; }
    } else {
      assert (full + rest)[1..] == full[1..] + rest;
      if count + 1 <= 100 {
        ReadsTaken(full[1..], rest, count + 1);
        if rest != [] && rest[0].Data? {
          assert full[0].bytes + (AllData(full[1..]) + rest[0].bytes) == (full[0].bytes + AllData(full[1..])) + rest[0].bytes;
        }
      } else {
        assert full[0].bytes + [] == full[0].bytes;
      }
    }
  }

  /** recvTcp: read until there is no more, parsing on the way when much has piled up. */
  function Recv(p: Protocol, c: Conn, script: seq<Received>, count: nat): Conn
    requires p.Ok()
    decreases |script|
  {
    if script == [] || script[0].Pending? then Parse(p, c)
    else if script[0].Closed? then c
    else
      var more := Piled(p, Fed(c, script[0].bytes));
      if |script[0].bytes| < BUFFER_SIZE || count + 1 > 100 then Parse(p, more)
      else Recv(p, more, script[1..], count + 1)
  }

  function Piled(p: Protocol, c: Conn): Conn
    requires p.Ok()
  {
    if |c.pending| > 8192 then Parse(p, c) else c
  }

  lemma ParseAgain(p: Protocol, c: Conn)
    requires p.Ok()
    ensures Parse(p, Parse(p, c)) == Parse(p, c)
  {
    ParseSplit(p, c, []);
    assert c.pending + [] == c.pending;
    assert Parse(p, c).pending + [] == Parse(p, c).pending;
  }

  /** Whatever recvTcp did, parsing once more gives what parsing all the bytes at once would. */
  lemma {:induction false} RecvOnlyDelays(p: Protocol, c: Conn, script: seq<Received>, count: nat)
    requires p.Ok()
    ensures Parse(p, Recv(p, c, script, count)) == Parse(p, Fed(c, Taken(script, count).0))
    ensures !Taken(script, count).1 ==>
              Recv(p, c, script, count) == Parse(p, Fed(c, Taken(script, count).0))
    decreases |script|
  {
    if script == [] || !script[0].Data? {
      assert Fed(c, []) == c;
      ParseAgain(p, c);
    } else {
      var bytes := script[0].bytes;
      var more := Piled(p, Fed(c, bytes));
      ParseAgain(p, Fed(c, bytes));
      if |bytes| < BUFFER_SIZE || count + 1 > 100 {
        ParseAgain(p, more);
      } else {
        var later := Taken(script[1..], count + 1).0;
        RecvOnlyDelays(p, more, script[1..], count + 1);
        ParseSplit(p, Fed(c, bytes), later);
        assert c.pending + bytes + later == c.pending + (bytes + later);
        assert Fed(Fed(c, bytes), later) == Fed(c, bytes + later);
      }
    }
  }

  /** A complete packet is waiting at the front. */
  predicate Ready(p: Protocol, c: Conn)
    requires p.Ok()
  {
    c.header <= |c.pending| && ParseFrame(p, c.pending[c.header..]).Full?
  }

  lemma ReadyCounts(p: Protocol, c: Conn)
    requires p.Ok()
    ensures Parse(p, c).out == c.out <==> !Ready(p, c)
  {
    if c.header <= |c.pending| {
      var (out, rest) := Frames(p, c.pending[c.header..]);
      assert |Parse(p, c).out| == |c.out| + |out|;
      if out == [] { assert c.out + [] == c.out; }
    }
  }

  /** The connection before the last read of a recvTcp that ends with the connection, and the bytes of
      that read. */
  function LastRead(p: Protocol, c: Conn, script: seq<Received>, count: nat): (Conn, seq<byte>)
    requires p.Ok() && Taken(script, count).1 && script[0].Data?
    decreases |script|
  {
    assert Taken(script[1..], count + 1).1;
    if script[1].Closed? then (c, script[0].bytes)
    else LastRead(p, Piled(p, Fed(c, script[0].bytes)), script[1..], count + 1)
  }

  /** A complete packet is left behind exactly when the last read found the buffer empty, so that no more
      than 8192 bytes had piled up, and completed a packet. */
  lemma {:induction false} LastReadDecides(p: Protocol, c: Conn, script: seq<Received>, count: nat)
    requires p.Ok() && Deliverable(script) && Taken(script, count).1 && script[0].Data?
    ensures var (before, last) := LastRead(p, c, script, count);
            Ready(p, Recv(p, c, script, count)) <==> before.pending == [] && Ready(p, Fed(before, last))
    decreases |script|
  {
    var more, later := Piled(p, Fed(c, script[0].bytes)), script[1..];
    assert later[0] == script[1];
    if later[0].Closed? {
      ParseAgain(p, Fed(c, script[0].bytes));
      ReadyCounts(p, more);
    } else {
      assert forall i :: 0 <= i < |later| ==> later[i] == script[i + 1];
      LastReadDecides(p, more, later, count + 1);
    }
  }

  /** recvTcp has handed on every packet that the connection has received. */
  predicate AllOut(p: Protocol, c: Conn, script: seq<Received>)
    requires p.Ok()
  {
    Recv(p, c, script, 0).out == Parse(p, Fed(c, Taken(script, 0).0)).out
  }

  /** When the connection ends inside recvTcp there is no last parse. The packets handed on are then
      all that the bytes contain, unless the last read found the buffer empty, which keeps what it
      brought from being parsed, and brought a whole packet; or, without a read, one was waiting. */
  lemma LostAtClose(p: Protocol, c: Conn, script: seq<Received>)
    requires p.Ok() && Deliverable(script) && Taken(script, 0).1
    ensures script[0].Closed? ==> (AllOut(p, c, script) <==> !Ready(p, c))
    ensures script[0].Data? ==>
              var (before, last) := LastRead(p, c, script, 0);
              AllOut(p, c, script) <==> !(before.pending == [] && Ready(p, Fed(before, last)))
  {
    RecvOnlyDelays(p, c, script, 0);
    ReadyCounts(p, Recv(p, c, script, 0));
    if script[0].Data? {
      LastReadDecides(p, c, script, 0);
    }
  }

  /** For example: a packet of exactly 8192 bytes in one piece, followed by the end of the
      connection, is never handed on; delivered as 8191 bytes and then one, it is. */
  lemma CutMattersBeforeClose(p: Protocol, v: seq<byte>)
    requires p.Ok() && |v| == BUFFER_SIZE && ParseFrame(p, v).Full?
    ensures Recv(p, Conn(0, [], []), [Data(v), Closed], 0).out == []
    ensures var first := Recv(p, Conn(0, [], []), [Data(v[..8191]), Pending], 0);
            Recv(p, first, [Data(v[8191..]), Closed], 0).out != []
  {
    var c := Conn(0, [], []);
    assert [Data(v), Closed][1..] == [Closed];
    assert [] + v == v && v[0..] == v;
    RecvOnlyDelays(p, c, [Data(v[..8191]), Pending], 0);
    var first := Recv(p, c, [Data(v[..8191]), Pending], 0);
    RecvOnlyDelays(p, first, [Data(v[8191..]), Closed], 0);
    assert [] + v[..8191] == v[..8191];
    assert v[..8191] + v[8191..] == v;
    ParseSplit(p, Fed(c, v[..8191]), v[8191..]);
    assert Fed(Fed(c, v[..8191]), v[8191..]) == Fed(c, v);
    assert |Frames(p, v).0| > 0;
  }

  // ----- any number of recvTcp calls -----

  function RecvAll(p: Protocol, c: Conn, scripts: seq<seq<Received>>): Conn
    requires p.Ok()
    decreases |scripts|
  {
    if scripts == [] then c else RecvAll(p, Recv(p, c, scripts[0], 0), scripts[1..])
  }

  function AllTaken(scripts: seq<seq<Received>>): seq<byte>
    decreases |scripts|
  {
    if scripts == [] then [] else Taken(scripts[0], 0).0 + AllTaken(scripts[1..])
  }

  lemma {:induction false} RecvAllIsParse(p: Protocol, c: Conn, scripts: seq<seq<Received>>)
    requires p.Ok() && Parse(p, c) == c
    requires forall i :: 0 <= i < |scripts| ==> !Taken(scripts[i], 0).1
    ensures RecvAll(p, c, scripts) == Parse(p, Fed(c, AllTaken(scripts)))
    decreases |scripts|
  {
    if scripts == [] {
      assert Fed(c, []) == c;
    } else {
      var bytes, later := Taken(scripts[0], 0).0, AllTaken(scripts[1..]);
      RecvOnlyDelays(p, c, scripts[0], 0);
      ParseAgain(p, Fed(c, bytes));
      RecvAllIsParse(p, Recv(p, c, scripts[0], 0), scripts[1..]);
      ParseSplit(p, Fed(c, bytes), later);
      assert Fed(Fed(c, bytes), later) == Fed(c, bytes + later);
    }
  }

  /** The same bytes, however they were cut into reads and calls, give the same packets, the same
      rest and the same verdict. */
  lemma CutDoesNotMatter(p: Protocol, header: nat, one: seq<seq<Received>>, other: seq<seq<Received>>)
    requires p.Ok()
    requires forall i :: 0 <= i < |one| ==> !Taken(one[i], 0).1
    requires forall i :: 0 <= i < |other| ==> !Taken(other[i], 0).1
    requires AllTaken(one) == AllTaken(other)
    ensures RecvAll(p, Conn(header, [], []), one) == RecvAll(p, Conn(header, [], []), other)
  {
    RecvAllIsParse(p, Conn(header, [], []), one);
    RecvAllIsParse(p, Conn(header, [], []), other);
  }

  // ----- the writer -----

  /** A packet as tarsRequest writes it: the 32-bit total length, then the body. */
  function Packet(body: seq<byte>): seq<byte> {
    ToBigEndian((|body| + 4) % UINT32, 4) + body
  }

  method TarsRequest(body: seq<byte>) returns (buff: array<byte>)
    ensures buff[..] == Packet(body)
  {
    buff := new byte[|body| + 4](_ => 0);
    forall i | 0 <= i < |body| { buff[4 + i] := body[i]; }
    var length := ToBigEndian(buff.Length % UINT32, 4);
    forall i | 0 <= i < 4 { buff[i] := length[i]; }
  }

  /** A written packet parses back to its body exactly when its length is within the limits. */
  lemma PacketRoundTrip(p: Protocol, body: seq<byte>, more: seq<byte>)
    requires p.Ok() && p.width == 4
    ensures ParseFrame(p, Packet(body) + more) == Full(body, more) <==> p.Least() <= |body| + 4 <= p.maxLength
  {
    var v := Packet(body) + more;
    var n := (|body| + 4) % UINT32;
    assert Pow256(4) == UINT32;
    BigEndianRoundTrip(n, 4);
    assert v[..4] == ToBigEndian(n, 4);
    if p.Least() <= n <= p.maxLength && n <= |v| {
      if n == |body| + 4 {
        assert v[4..n] == body && v[n..] == more;
      } else {
        assert |v[4..n]| < |body|;
      }
    }
  }

  function Packets(bodies: seq<seq<byte>>): seq<byte> {
    if bodies == [] then [] else Packet(bodies[0]) + Packets(bodies[1..])
  }

  /** Any number of packets written one after the other parse back to exactly their bodies. */
  lemma {:induction false} PacketsRoundTrip(p: Protocol, bodies: seq<seq<byte>>)
    requires p.Ok() && p.width == 4
    requires forall i :: 0 <= i < |bodies| ==> p.Least() <= |bodies[i]| + 4 <= p.maxLength
    ensures Frames(p, Packets(bodies)) == (bodies, [])
  {
    if bodies != [] {
      PacketRoundTrip(p, bodies[0], Packets(bodies[1..]));
      PacketsRoundTrip(p, bodies[1..]);
      assert [bodies[0]] + bodies[1..] == bodies;
    }
  }

  /** A connection that receives a header of the agreed length, whole packets and the beginning of
      another one hands on exactly the bodies and keeps the beginning. */
  lemma StreamDelivered(p: Protocol, header: seq<byte>, bodies: seq<seq<byte>>, tail: seq<byte>,
                        scripts: seq<seq<Received>>)
    requires p.Ok() && p.width == 4
    requires forall i :: 0 <= i < |bodies| ==> p.Least() <= |bodies[i]| + 4 <= p.maxLength
    requires ParseFrame(p, tail).Less?
    requires forall i :: 0 <= i < |scripts| ==> !Taken(scripts[i], 0).1
    requires AllTaken(scripts) == header + Packets(bodies) + tail
    ensures RecvAll(p, Conn(|header|, [], []), scripts) == Conn(0, tail, bodies)
  {
    FramesOfStream(p, bodies, tail);
    DeliveredAs(p, header, Packets(bodies), tail, scripts);
  }

  lemma DeliveredAs(p: Protocol, header: seq<byte>, a: seq<byte>, b: seq<byte>, scripts: seq<seq<Received>>)
    requires p.Ok() && AllTaken(scripts) == header + a + b
    requires forall i :: 0 <= i < |scripts| ==> !Taken(scripts[i], 0).1
    ensures RecvAll(p, Conn(|header|, [], []), scripts) == Conn(0, Frames(p, a + b).1, Frames(p, a + b).0)
  {
    var v := a + b;
    assert header + a + b == header + v;
    RecvAllIsParse(p, Conn(|header|, [], []), scripts);
    HeaderSkipped(p, header, v);
  }

  lemma HeaderSkipped(p: Protocol, header: seq<byte>, v: seq<byte>)
    requires p.Ok()
    ensures Parse(p, Fed(Conn(|header|, [], []), header + v)) == Conn(0, Frames(p, v).1, Frames(p, v).0)
  {
    assert [] + (header + v) == header + v;
    assert (header + v)[|header|..] == v;
    assert [] + Frames(p, v).0 == Frames(p, v).0;
  }

  /** And one that receives whole packets and then a prefix beyond the limits hands on exactly those packets
      and is malformed, in whatever cut, so that recvTcp fails; v is any bytes that are whole packets. */
  lemma StreamRefused(p: Protocol, header: seq<byte>, v: seq<byte>, tail: seq<byte>, scripts: seq<seq<Received>>)
    requires p.Ok() && Frames(p, v).1 == [] && OutOfLimits(p, tail)
    requires forall i :: 0 <= i < |scripts| ==> !Taken(scripts[i], 0).1
    requires AllTaken(scripts) == header + v + tail
    ensures var c := RecvAll(p, Conn(|header|, [], []), scripts);
            c == Conn(0, tail, Frames(p, v).0) && Malformed(p, c)
  {
    DeliveredAs(p, header, v, tail, scripts);
    FramesRefused(p, v, tail);
    MalformedIff(p, Conn(0, tail, Frames(p, v).0));
  }

  lemma FramesRefused(p: Protocol, v: seq<byte>, tail: seq<byte>)
    requires p.Ok() && Frames(p, v).1 == [] && OutOfLimits(p, tail)
    ensures Frames(p, v + tail) == (Frames(p, v).0, tail)
  {
    FrameDecided(p, tail);
    FramesSplit(p, v, tail);
    assert [] + tail == tail && Frames(p, v).0 + [] == Frames(p, v).0;
  }

  /** For the packets of the writer. */
  lemma PacketsThenRefused(p: Protocol, header: seq<byte>, bodies: seq<seq<byte>>, tail: seq<byte>, scripts: seq<seq<Received>>)
    requires p.Ok() && p.width == 4 && OutOfLimits(p, tail)
    requires forall i :: 0 <= i < |bodies| ==> p.Least() <= |bodies[i]| + 4 <= p.maxLength
    requires forall i :: 0 <= i < |scripts| ==> !Taken(scripts[i], 0).1
    requires AllTaken(scripts) == header + Packets(bodies) + tail
    ensures RecvAll(p, Conn(|header|, [], []), scripts) == Conn(0, tail, bodies)
  {
    PacketsRoundTrip(p, bodies);
    StreamRefused(p, header, Packets(bodies), tail, scripts);
  }

  lemma FramesOfStream(p: Protocol, bodies: seq<seq<byte>>, tail: seq<byte>)
    requires p.Ok() && p.width == 4
    requires forall i :: 0 <= i < |bodies| ==> p.Least() <= |bodies[i]| + 4 <= p.maxLength
    requires ParseFrame(p, tail).Less?
    ensures Frames(p, Packets(bodies) + tail) == (bodies, tail)
  {
    PacketsRoundTrip(p, bodies);
    FramesSplit(p, Packets(bodies), tail);
    assert [] + tail == tail && bodies + [] == bodies;
  }

  /** One packet on is as far as all of them. */
  lemma PacketTaken(p: Protocol, v: seq<byte>, out: seq<seq<byte>>)
    requires p.Ok()
    ensures match ParseFrame(p, v)
            case Full(body, rest) => Parse(p, Conn(0, rest, out + [body])) == Parse(p, Conn(0, v, out)) && |rest| < |v|
            case _ => Parse(p, Conn(0, v, out)) == Conn(0, v, out)
  {
    assert v[0..] == v;
    match ParseFrame(p, v) {
      case Full(body, rest) =>
        assert rest[0..] == rest;
        assert out + ([body] + Frames(p, rest).0) == (out + [body]) + Frames(p, rest).0;
      case _ => assert out + [] == out;
    }
  }

  // ----- the connection, in place -----

  class Connection {
    const recvBuffer: NetworkBuffer
    const protocol: Protocol
    var iHeaderLen: nat
    var queue: seq<seq<byte>>

    constructor (p: Protocol, headerLen: nat)
      requires p.Ok()
      ensures Valid() && State() == Conn(headerLen, [], []) && protocol == p
      ensures fresh(recvBuffer)
    {
      protocol := p;
      recvBuffer := new NetworkBuffer();
      iHeaderLen := headerLen;
      queue := [];
    }

    ghost predicate Valid()
      reads this, recvBuffer, recvBuffer.bufferList
    {
      recvBuffer.Valid() && protocol.Ok()
    }

    ghost function State(): Conn
      reads this, recvBuffer, recvBuffer.bufferList
      requires Valid()
    {
      Conn(iHeaderLen, recvBuffer.View(), queue)
    }

    /** The part of parseProtocol that skips the header of the first packet; false when the bytes
        run out before the header does. */
    method SkipHeader() returns (more: bool)
      requires Valid() && State().pending != [] && iHeaderLen < UINT32
      modifies this, recvBuffer, recvBuffer.Owned()
      ensures Valid() && recvBuffer.Owned() <= old(recvBuffer.Owned()) && iHeaderLen < UINT32
      ensures Parse(protocol, State()) == Parse(protocol, old(State()))
      ensures more <==> iHeaderLen == 0
      ensures !more ==> State().pending == []
      ensures |State().pending| <= |old(State()).pending|
    {
      ghost var was := State();
      more := true;
      if iHeaderLen > 0 {
        var n := recvBuffer.GetBufferLength();
        if n >= iHeaderLen {
          var moved := recvBuffer.Skip(iHeaderLen);
          iHeaderLen := 0;
          assert State().pending == was.pending[was.header..];
          assert State().pending[0..] == State().pending;
        } else {
          iHeaderLen := iHeaderLen - n;
          recvBuffer.ClearBuffers();
          more := false;
        }
      }
    }

    /** The rest of the loop body: one packet, if there is one. */
    method TakePacket() returns (ret: PacketType)
      requires Valid() && iHeaderLen == 0
      modifies this, recvBuffer, recvBuffer.Owned()
      ensures Valid() && recvBuffer.Owned() <= old(recvBuffer.Owned()) && iHeaderLen == 0
      ensures Parse(protocol, State()) == Parse(protocol, old(State()))
      ensures ret == PACKET_FULL ==> |State().pending| < |old(State()).pending|
      ensures ret != PACKET_FULL ==> Parse(protocol, State()) == State()
      ensures ret == PACKET_ERR ==> Malformed(protocol, State())
      ensures ret == PACKET_LESS ==> !Malformed(protocol, State())
    {
      PacketTaken(protocol, recvBuffer.View(), queue);
      var ro;
      ret, ro := ParseBuffer(recvBuffer, protocol);
      if ret == PACKET_FULL {
        queue := queue + [ro];
      }
    }

    /** parseProtocol */
    method ParseProtocol() returns (ret: int)
      requires Valid() && iHeaderLen < UINT32
      modifies this, recvBuffer, recvBuffer.Owned()
      ensures Valid() && recvBuffer.Owned() <= old(recvBuffer.Owned()) && iHeaderLen < UINT32
      ensures State() == Parse(protocol, old(State()))
      ensures ret == if Malformed(protocol, State()) then -1 else 0
      ensures ret == -1 <==> iHeaderLen == 0 && OutOfLimits(protocol, State().pending)
    {
      var go := true;
      ret := 0;
      while go && recvBuffer.length != 0
        invariant Valid() && recvBuffer.Owned() <= old(recvBuffer.Owned()) && iHeaderLen < UINT32
        invariant Parse(protocol, State()) == Parse(protocol, old(State()))
        invariant !go ==> Parse(protocol, State()) == State() && ret == if Malformed(protocol, State()) then -1 else 0
        invariant go ==> ret == 0
        decreases go, |State().pending|
      {
        go, ret := OnePass();
      }
      ParseNothing(protocol, State());
      MalformedIff(protocol, State());
    }

    method OnePass() returns (go: bool, ret: int)
      requires Valid() && iHeaderLen < UINT32 && State().pending != []
      modifies this, recvBuffer, recvBuffer.Owned()
      ensures Valid() && recvBuffer.Owned() <= old(recvBuffer.Owned()) && iHeaderLen < UINT32
      ensures Parse(protocol, State()) == Parse(protocol, old(State()))
      ensures go ==> ret == 0 && |State().pending| < |old(State()).pending|
      ensures !go ==> Parse(protocol, State()) == State() && ret == if Malformed(protocol, State()) then -1 else 0
    {
      var more := SkipHeader();
      if !more {
        ParseNothing(protocol, State());
        return false, 0;
      }
      var b := TakePacket();
      go, ret := b == PACKET_FULL, if b == PACKET_ERR then -1 else 0;
    }

    /** recvTcp: script is what the socket's recv() returns, call after call. */
    method RecvTcp(script: seq<Received>) returns (ret: int)
      requires Valid() && iHeaderLen < UINT32 && Deliverable(script)
      modifies this, recvBuffer, recvBuffer.Owned()
      ensures Valid() && iHeaderLen < UINT32
      ensures State() == Recv(protocol, old(State()), script, 0)
      ensures ret == if Taken(script, 0).1 || (iHeaderLen == 0 && OutOfLimits(protocol, State().pending)) then -1 else 0
    {
      var i, recvCount := 0, 0;
      while true
        invariant Valid() && iHeaderLen < UINT32 && i <= |script| && recvCount <= 100
        invariant fresh(recvBuffer.Owned() - old(recvBuffer.Owned()))
        invariant Recv(protocol, State(), script[i..], recvCount) == Recv(protocol, old(State()), script, 0)
        invariant Taken(script[i..], recvCount).1 == Taken(script, 0).1
        decreases |script| - i
      {
        if i == |script| || script[i].Pending? {
          break;
        }
        if script[i].Closed? {
          return -1;
        }
        AddAndParse(script[i].bytes);
        assert script[i..][1..] == script[i + 1..];
        if |script[i].bytes| < BUFFER_SIZE {
          break;
        }
        recvCount := recvCount + 1;
        if recvCount > 100 {
          break;
        }
        i := i + 1;
      }
      ret := ParseProtocol();
    }

    method AddAndParse(bytes: seq<byte>)
      requires Valid() && iHeaderLen < UINT32
      modifies this, recvBuffer, recvBuffer.Owned()
      ensures Valid() && iHeaderLen < UINT32
      ensures fresh(recvBuffer.Owned() - old(recvBuffer.Owned()))
      ensures State() == Piled(protocol, Fed(old(State()), bytes))
    {
      recvBuffer.AddBytes(bytes);
      if recvBuffer.length > 8192 {
        var ret := ParseProtocol();
      }
    }
  }

  lemma ParseNothing(p: Protocol, c: Conn)
    requires p.Ok()
    ensures c.pending == [] ==> Parse(p, c) == c && !Malformed(p, c)
  {
    if c.pending == [] {
      assert c.out + [] == c.out;
    }
  }
}
