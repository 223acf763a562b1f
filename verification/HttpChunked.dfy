/** The incremental HTTP response decoder. Chunked transfer coding is section 4.1 of RFC 7230. */
module HttpChunked {
  import opened Basics
  import opened NetworkBuffers

  const CR: byte := 13
  const LF: byte := 10
  const CRLF: seq<byte> := [CR, LF]
  const HEADER_END: seq<byte> := [CR, LF, CR, LF]

  // ----- finding separators in a growing buffer -----

  lemma {:induction false} FindExtends(a: seq<byte>, b: seq<byte>, sep: seq<byte>)
    requires sep != [] && Find(a, sep) < |a|
    ensures Find(a + b, sep) == Find(a, sep)
  {
    FindFirst(a, sep);
    assert a[Find(a, sep)..] == a[Find(a, sep)..][..|sep|] + a[Find(a, sep)..][|sep|..];
    assert (a + b)[..|sep|] == a[..|sep|];
    if sep <= a {
      assert sep <= a + b;
    } else {
      assert (a + b)[1..] == a[1..] + b;
      FindExtends(a[1..], b, sep);
    }
  }

  lemma {:induction false} FindAfter(line: seq<byte>, sep: seq<byte>, rest: seq<byte>)
    requires |sep| == 2
    requires forall j :: 0 <= j < |line| ==> !(sep <= (line + sep)[j..])
    ensures Find(line + sep + rest, sep) == |line|
  {
    var v := line + sep + rest;
    forall j | 0 <= j < |line| ensures !(sep <= v[j..]) {
      assert v[j..] == (line + sep)[j..] + rest;
      assert (line + sep)[j..][..2] == v[j..][..2];
    }
    FindFrom(v, sep, |line|);
    assert v[|line|..] == sep + rest;
    assert sep <= sep + rest;
  }

  // ----- the size line -----

  predicate IsSpace(c: byte) {
    c == 32 || 9 <= c <= 13
  }

  function HexDigit(c: byte): (d: int)
    ensures -1 <= d < 16
  {
    if '0' as int <= c <= '9' as int then c - '0' as int
    else if 'a' as int <= c <= 'f' as int then c - 'a' as int + 10
    else if 'A' as int <= c <= 'F' as int then c - 'A' as int + 10
    else -1
  }

  /** The value of the hexadecimal digits s starts with, after acc. */
  function HexValue(s: seq<byte>, acc: nat): nat {
    if s == [] || HexDigit(s[0]) < 0 then acc else HexValue(s[1..], acc * 16 + HexDigit(s[0]))
  }

  const LONG_MAX := 0x7FFF_FFFF_FFFF_FFFF

  /** strtol(s, NULL, 16): white space, sign, optional 0x, digits; saturating. */
  function StrToL16(s: seq<byte>): int {
    if s != [] && IsSpace(s[0]) then StrToL16(s[1..])
    else
      var neg := s != [] && s[0] == '-' as int;
      var t := if s != [] && (s[0] == '-' as int || s[0] == '+' as int) then s[1..] else s;
      var u := if |t| > 2 && t[0] == '0' as int && (t[1] == 'x' as int || t[1] == 'X' as int) && HexDigit(t[2]) >= 0
               then t[2..] else t;
      var n := HexValue(u, 0);
      if neg then (if n > LONG_MAX + 1 then -LONG_MAX - 1 else 0 - n as int)
      else (if n > LONG_MAX then LONG_MAX else n)
  }

  type Int32 = n: int | -0x8000_0000 <= n < 0x8000_0000

  /** A value that does not fit an int wraps around. */
  function ToInt32(n: int): Int32 {
    var m := n % UINT32;
    if m < 0x8000_0000 then m else m - UINT32
  }

  function ChunkSize(line: seq<byte>): Int32 {
    ToInt32(StrToL16(line))
  }

  /** n in lower-case hexadecimal, as a sender writes it. */
  function Hex(n: nat): (s: seq<byte>)
    ensures |s| >= 1
    decreases n
  {
    var d := n % 16;
    var c: byte := if d < 10 then '0' as int + d else 'a' as int + d - 10;
    if n < 16 then [c] else Hex(n / 16) + [c]
  }

  lemma {:induction false} HexValueAppend(s: seq<byte>, c: byte, acc: nat)
    requires forall i :: 0 <= i < |s| ==> HexDigit(s[i]) >= 0
    requires HexDigit(c) >= 0
    ensures HexValue(s + [c], acc) == HexValue(s, acc) * 16 + HexDigit(c)
  {
    if s == [] {
      assert HexValue([c], acc) == HexValue([c][1..], acc * 16 + HexDigit(c));
      assert ([] + [c]) == [c];
    } else {
      assert (s + [c])[1..] == s[1..] + [c];
      HexValueAppend(s[1..], c, acc * 16 + HexDigit(s[0]));
    }
  }

  lemma {:induction false} HexRoundTrip(n: nat)
    ensures HexValue(Hex(n), 0) == n
    ensures forall i :: 0 <= i < |Hex(n)| ==> HexDigit(Hex(n)[i]) >= 0
    decreases n
  {
    var d := n % 16;
    var c: byte := if d < 10 then '0' as int + d else 'a' as int + d - 10;
    if n < 16 {
      assert HexValue([c], 0) == HexValue([c][1..], HexDigit(c));
    } else {
      HexRoundTrip(n / 16);
      HexValueAppend(Hex(n / 16), c, 0);
    }
  }

  /** A plain hexadecimal size is read as that size exactly when it is below 2^31. */
  lemma HexChunkSize(n: nat)
    ensures ChunkSize(Hex(n)) == n <==> n < 0x8000_0000
  {
    if n < 0x8000_0000 {
      var s := Hex(n);
      HexRoundTrip(n);
      PlainHex(s);
      ToInt32Small(n);
    }
  }

  lemma ToInt32Small(n: nat)
    requires n < 0x8000_0000
    ensures ToInt32(n) == n
  {
  }

  lemma PlainHex(s: seq<byte>)
    requires |s| >= 1 && forall i :: 0 <= i < |s| ==> HexDigit(s[i]) >= 0
    requires HexValue(s, 0) <= LONG_MAX
    ensures StrToL16(s) == HexValue(s, 0)
  {
    assert HexDigit(s[0]) >= 0;
    if |s| > 2 { assert HexDigit(s[1]) >= 0; }
  }

  // ----- chunks -----

  /** How a size line is read. Splitting and concatenation do not depend on it. */
  type SizeReader = seq<byte> -> Int32

  /** The greatest size that a chunk is stepped over by. */
  const LARGEST := 0x7FFF_FFFD

  /** How many bytes moveHeader(iChunkSize + 2) takes off: the sum is an int, and one that has wrapped
      around to a negative number is, as a length, beyond any buffer, so that moveHeader refuses. */
  function Moved(n: Int32): nat {
    if ToInt32(n + 2) < 0 then 0 else ToInt32(n + 2)
  }

  lemma MovedExactly(n: Int32)
    requires n > 0
    ensures Moved(n) == (if n <= LARGEST then n + 2 else 0)
  {
  }

  datatype Piece = NotYet | Piece(payload: seq<byte>, rest: seq<byte>)

  /** The chunk of n bytes behind a size line of k. */
  function CutBehind(v: seq<byte>, k: nat, n: Int32): (r: Piece)
    ensures r.Piece? ==> |r.rest| < |v|
  {
    if n <= 0 || |v| < k + 2 + n + 2 then NotYet
    else
      MovedExactly(n);
      Piece(v[k + 2..k + 2 + n], v[k + 2 + Moved(n)..])
  }

  /** One complete chunk at the front. */
  function Next(size: SizeReader, v: seq<byte>): (r: Piece)
    ensures r.Piece? ==> |r.rest| < |v|
  {
    var k := Find(v, CRLF);
    if k == |v| then NotYet else CutBehind(v, k, size(v[..k]))
  }

  /** The line of the last chunk at the front. */
  predicate Ends(size: SizeReader, v: seq<byte>) {
    var k := Find(v, CRLF);
    k < |v| && size(v[..k]) <= 0
  }

  /** What the chunk loop makes of buffered bytes: payload, what stays buffered, and whether the
      last chunk was seen. */
  datatype Chunked = Chunked(content: seq<byte>, rest: seq<byte>, last: bool)

  function Chunks(size: SizeReader, v: seq<byte>): Chunked
    decreases |v|
  {
    if Ends(size, v) then Chunked([], [], true)
    else
      var next := Next(size, v);
      if !next.Piece? then Chunked([], v, false)
      else var c := Chunks(size, next.rest); Chunked(next.payload + c.content, c.rest, c.last)
  }

  lemma NextExtends(size: SizeReader, a: seq<byte>, b: seq<byte>)
    ensures Ends(size, a) ==> Ends(size, a + b)
    ensures Next(size, a).Piece? ==> !Ends(size, a + b) && Next(size, a + b) == Piece(Next(size, a).payload, Next(size, a).rest + b)
  {
    var k := Find(a, CRLF);
    if k < |a| {
      FindExtends(a, b, CRLF);
      assert (a + b)[..k] == a[..k];
      var n := size(a[..k]);
      if n > 0 && |a| >= k + 2 + n + 2 {
        MovedExactly(n);
        assert (a + b)[k + 2 + Moved(n)..] == a[k + 2 + Moved(n)..] + b;
        assert (a + b)[k + 2..k + 2 + n] == a[k + 2..k + 2 + n];
      }
    }
  }

  lemma ChunksCons(size: SizeReader, v: seq<byte>)
    requires !Ends(size, v) && Next(size, v).Piece?
    ensures var c := Chunks(size, Next(size, v).rest);
            Chunks(size, v) == Chunked(Next(size, v).payload + c.content, c.rest, c.last)
  {
  }

  /** All the content that has been read and that buffered chunks make up, and what is left then. */
  function After(size: SizeReader, content: seq<byte>, v: seq<byte>): Chunked {
    var c := Chunks(size, v);
    Chunked(content + c.content, c.rest, c.last)
  }

  /** Taking one chunk off the front leaves the outcome as it was. */
  lemma OneTurn(size: SizeReader, v: seq<byte>, content: seq<byte>)
    ensures Ends(size, v) ==> After(size, content, v) == Chunked(content, [], true)
    ensures !Ends(size, v) && Next(size, v).Piece? ==>
              After(size, content, v) == After(size, content + Next(size, v).payload, Next(size, v).rest)
    ensures !Ends(size, v) && !Next(size, v).Piece? ==> After(size, content, v) == Chunked(content, v, false)
  {
    assert content + [] == content;
    if !Ends(size, v) && Next(size, v).Piece? {
      var c := Chunks(size, Next(size, v).rest).content;
      assert content + (Next(size, v).payload + c) == (content + Next(size, v).payload) + c;
    }
  }

  lemma Glue(x: seq<byte>, c: Chunked, d: Chunked, e: Chunked)
    requires e == if c.last then c else Chunked(c.content + d.content, d.rest, d.last)
    ensures c.last ==> Chunked(x + e.content, e.rest, e.last) == Chunked(x + c.content, c.rest, c.last)
    ensures !c.last ==> Chunked(x + e.content, e.rest, e.last) == Chunked((x + c.content) + d.content, d.rest, d.last)
  {
    assert x + (c.content + d.content) == (x + c.content) + d.content;
  }

  function Continued(size: SizeReader, c: Chunked, b: seq<byte>): Chunked {
    if c.last then c
    else var d := Chunks(size, c.rest + b); Chunked(c.content + d.content, d.rest, d.last)
  }

  /** Bytes that come later only continue where the loop stopped. */
  lemma {:induction false} ChunksSplit(size: SizeReader, a: seq<byte>, b: seq<byte>)
    ensures Chunks(size, a + b) == Continued(size, Chunks(size, a), b)
    decreases |a|
  {
    NextExtends(size, a, b);
    if !Ends(size, a) {
      if Next(size, a).Piece? {
        var c := Chunks(size, Next(size, a).rest);
        ChunksSplit(size, Next(size, a).rest, b);
        ChunksCons(size, a + b);
        ChunksCons(size, a);
        Glue(Next(size, a).payload, c, Chunks(size, c.rest + b), Chunks(size, Next(size, a).rest + b));
      } else {
        assert [] + Chunks(size, a + b).content == Chunks(size, a + b).content;
      }
    }
  }

  /** One chunk as sent: the size line, which may carry an extension, and the payload. */
  datatype Part = Part(line: seq<byte>, data: seq<byte>) {
    predicate Proper(size: SizeReader) {
      |data| > 0 && size(line) == |data| && PlainLine(line)
    }

    predicate Ok(size: SizeReader) {
      Proper(size) && |data| <= LARGEST
    }
  }

  lemma HexLine(n: nat)
    ensures PlainLine(Hex(n))
  {
    HexRoundTrip(n);
    var line := Hex(n);
    forall j | 0 <= j < |line| ensures !(CRLF <= (line + CRLF)[j..]) {
      assert HexDigit(line[j]) >= 0 && (line + CRLF)[j..][0] == line[j] && CRLF[0] == CR;
    }
  }

  /** A sender that writes plain hexadecimal sizes sends acceptable chunks exactly up to the largest. */
  lemma HexPartOk(size: SizeReader, data: seq<byte>)
    requires size(Hex(|data|)) == ChunkSize(Hex(|data|))
    ensures Part(Hex(|data|), data).Ok(size) <==> 0 < |data| <= LARGEST
  {
    HexChunkSize(|data|);
    HexLine(|data|);
  }

  predicate PlainLine(line: seq<byte>) {
    forall j :: 0 <= j < |line| ==> !(CRLF <= (line + CRLF)[j..])
  }

  /** A chunk and what follows it. */
  function Written(x: Part, next: seq<byte>): seq<byte> {
    x.line + CRLF + x.data + CRLF + next
  }

  function Begun(parts: seq<Part>): seq<byte> {
    if parts == [] then [] else Written(parts[0], Begun(parts[1..]))
  }

  /** A whole chunked body, up to the line of the last chunk. */
  function Sent(parts: seq<Part>, last: seq<byte>): seq<byte> {
    Begun(parts) + last + CRLF
  }

  function Payload(parts: seq<Part>): seq<byte> {
    if parts == [] then [] else parts[0].data + Payload(parts[1..])
  }

  /** A complete chunk is read whatever its size, and is stepped over exactly up to the largest; beyond
      it the payload stays in the buffer and is read again, as a size line. */
  lemma SteppedOver(size: SizeReader, x: Part, next: seq<byte>)
    requires x.Proper(size)
    ensures var v := Written(x, next);
            && !Ends(size, v) && Next(size, v).Piece? && Next(size, v).payload == x.data
            && Next(size, v).rest == (if |x.data| <= LARGEST then next else x.data + CRLF + next)
            && (Next(size, v).rest == next <==> |x.data| <= LARGEST)
  {
    var v := Written(x, next);
    var after := x.data + CRLF + next;
    assert v == x.line + CRLF + after;
    FindAfter(x.line, CRLF, after);
    var k, n := |x.line|, |x.data|;
    MovedExactly(n);
    assert v[..k] == x.line;
    assert v[k + 2..] == after;
    assert v[k + 2..k + 2 + n] == x.data;
    assert v[k + 2 + n + 2..] == next;
  }

  lemma ChunksWritten(size: SizeReader, x: Part, next: seq<byte>)
    requires x.Ok(size)
    ensures var c := Chunks(size, next);
            Chunks(size, Written(x, next)) == Chunked(x.data + c.content, c.rest, c.last)
  {
    SteppedOver(size, x, next);
    ChunksCons(size, Written(x, next));
  }

  /** As long as the next chunk is not complete, the loop has the payloads of those before it; and it is at
      the end exactly when the line that ends the body is next. */
  lemma {:induction false} ChunksBegun(size: SizeReader, parts: seq<Part>, tail: seq<byte>)
    requires forall i :: 0 <= i < |parts| ==> parts[i].Ok(size)
    requires !Next(size, tail).Piece?
    ensures Chunks(size, Begun(parts) + tail)
         == Chunked(Payload(parts), if Ends(size, tail) then [] else tail, Ends(size, tail))
  {
    if parts == [] {
      assert [] + tail == tail;
    } else {
      ChunksBegun(size, parts[1..], tail);
      var next := Begun(parts[1..]) + tail;
      assert Begun(parts) + tail == Written(parts[0], next);
      ChunksWritten(size, parts[0], next);
    }
  }

  lemma LastLine(size: SizeReader, last: seq<byte>, tail: seq<byte>)
    requires PlainLine(last) && size(last) <= 0
    ensures !Next(size, last + CRLF + tail).Piece? && Ends(size, last + CRLF + tail)
  {
    FindAfter(last, CRLF, tail);
    assert (last + CRLF + tail)[..|last|] == last;
  }

  /** A chunked body decodes to the concatenated payloads of the chunks before the first whose size
      is not positive, whatever follows that chunk's line. */
  lemma ChunksPayload(size: SizeReader, parts: seq<Part>, last: seq<byte>, tail: seq<byte>)
    requires forall i :: 0 <= i < |parts| ==> parts[i].Ok(size)
    requires PlainLine(last) && size(last) <= 0
    ensures Chunks(size, Sent(parts, last) + tail) == Chunked(Payload(parts), [], true)
  {
    LastLine(size, last, tail);
    ChunksBegun(size, parts, last + CRLF + tail);
    assert Sent(parts, last) + tail == Begun(parts) + (last + CRLF + tail);
  }

  // ----- a whole response -----

  /** What the header lines say; BadHead when reading them throws. length is -1 when there is no
      Content-Length. */
  datatype Head = Head(status: int, location: bool, chunked: bool, length: int) | BadHead {
    /** Decoding does not depend on the cut: chunked, or over when the header is. */
    predicate Streams() {
      BadHead? || NoBody() || Redirect() || chunked
    }

    predicate NoBody()
      requires Head?
    {
      status == 204 || status == 304
    }

    predicate Redirect()
      requires Head?
    {
      (status == 301 || status == 302) && location
    }
  }

  datatype Reader = Reader(head: seq<byte> -> Head, size: SizeReader)

  datatype Phase = Opening | Body(head: Head)

  datatype Response = Response(phase: Phase, pending: seq<byte>, content: seq<byte>)

  datatype Verdict = More | Done | Thrown

  const START := Response(Opening, [], [])

  function DecodeBody(rd: Reader, h: Head, v: seq<byte>, content: seq<byte>): (Response, Verdict)
    requires h.Head?
  {
    if h.chunked then
      var c := Chunks(rd.size, v);
      (Response(Body(h), c.rest, content + c.content), if c.last then Done else More)
    else if h.length == 0 then (Response(Body(h), [], content + v), Done)
    else if h.length == -1 then
      if h.status == 304 || h.status == 302 then (Response(Body(h), v, content), Done)
      else (Response(Body(h), [], content + v), More)
    else (Response(Body(h), [], content + v), if h.length > |content + v| then More else Done)
  }

  /** The length of the header, up to and including the empty line; 0 while it is incomplete. */
  function HeadLength(v: seq<byte>): (n: nat)
    ensures n <= |v|
    ensures n == 0 <==> Find(v, HEADER_END) == |v|
  {
    FindFirst(v, HEADER_END);
    var k := Find(v, HEADER_END);
    if k == |v| then 0 else k + 4
  }

  /** incrementDecode on everything buffered. */
  function Decode(rd: Reader, r: Response): (Response, Verdict) {
    if r.pending == [] then (r, More)
    else if r.phase.Opening? then
      var n := HeadLength(r.pending);
      if n == 0 then (r, More) else AfterHead(rd, rd.head(r.pending[..n]), r.pending, n, r.content)
    else if r.phase.head.BadHead? then (r, Thrown)
    else DecodeBody(rd, r.phase.head, r.pending, r.content)
  }

  function AfterHead(rd: Reader, h: Head, v: seq<byte>, n: nat, content: seq<byte>): (Response, Verdict)
    requires n <= |v|
  {
    if h.BadHead? then (Response(Body(h), v, content), Thrown)
    else if h.NoBody() then (Response(Body(h), v, content), Done)
    else if h.Redirect() then (Response(Body(h), v[n..], content), Done)
    else DecodeBody(rd, h, v[n..], content)
  }

  function Received(r: Response, bytes: seq<byte>): Response {
    r.(pending := r.pending + bytes)
  }

  /** If the header is complete, it is one after which the cut cannot matter. */
  predicate Streaming(rd: Reader, r: Response) {
    match r.phase
    case Body(h) => h.Head? && h.chunked
    case Opening => var n := HeadLength(r.pending); n > 0 ==> rd.head(r.pending[..n]).Streams()
  }

  lemma BodySplit(rd: Reader, h: Head, v: seq<byte>, content: seq<byte>, b: seq<byte>)
    requires h.Head? && h.chunked
    ensures var one := DecodeBody(rd, h, v, content);
            var all := DecodeBody(rd, h, v + b, content);
            if one.1 == More then all == DecodeBody(rd, h, one.0.pending + b, one.0.content)
            else one.1 == Done && all.1 == Done && all.0.content == one.0.content
  {
    ChunksSplit(rd.size, v, b);
    var c := Chunks(rd.size, v);
    var d := Chunks(rd.size, c.rest + b);
    assert content + (c.content + d.content) == (content + c.content) + d.content;
  }

  /** A decision that incrementDecode has reached stands; otherwise it goes on from where it was as
      if all bytes had come at once. */
  lemma DecodeSplit(rd: Reader, r: Response, b: seq<byte>)
    requires Streaming(rd, Received(r, b))
    ensures var one := Decode(rd, r);
            var all := Decode(rd, Received(r, b));
            if one.1 == More then Decode(rd, Received(one.0, b)) == all && Streaming(rd, Received(one.0, b))
            else all.1 == one.1 && all.0.content == one.0.content
  {
    var v := r.pending;
    if v == [] {
    } else if r.phase.Opening? {
      var n := HeadLength(v);
      if n > 0 {
        FindExtends(v, b, HEADER_END);
        assert (v + b)[..n] == v[..n];
        assert (v + b)[n..] == v[n..] + b;
        var h := rd.head(v[..n]);
        if h.Head? && !h.NoBody() && !h.Redirect() {
          BodySplit(rd, h, v[n..], r.content, b);
          NothingMore(rd, h, DecodeBody(rd, h, v[n..], r.content).0, b);
        }
      }
    } else {
      BodySplit(rd, r.phase.head, v, r.content, b);
      NothingMore(rd, r.phase.head, DecodeBody(rd, r.phase.head, v, r.content).0, b);
    }
  }

  lemma BodyAgain(rd: Reader, h: Head, v: seq<byte>, content: seq<byte>)
    requires h.Head? && DecodeBody(rd, h, v, content).1 == More
    ensures var one := DecodeBody(rd, h, v, content).0; Decode(rd, one) == (one, More)
  {
    if h.chunked {
      var c := Chunks(rd.size, v);
      ChunksSplit(rd.size, v, []);
      assert v + [] == v && c.rest + [] == c.rest;
      var d := Chunks(rd.size, c.rest);
      assert |c.content + d.content| == |c.content|;
      assert (content + c.content) + d.content == content + c.content;
    }
  }

  /** Without new bytes there is nothing more to decode. */
  lemma DecodeAgain(rd: Reader, r: Response)
    requires Decode(rd, r).1 == More
    ensures Decode(rd, Decode(rd, r).0) == (Decode(rd, r).0, More)
  {
    if r.pending != [] {
      if r.phase.Opening? {
        var n := HeadLength(r.pending);
        if n > 0 {
          BodyAgain(rd, rd.head(r.pending[..n]), r.pending[n..], r.content);
        }
      } else {
        BodyAgain(rd, r.phase.head, r.pending, r.content);
      }
    }
  }

  lemma NothingMore(rd: Reader, h: Head, one: Response, b: seq<byte>)
    requires h.Head? && h.chunked && one.phase == Body(h)
    ensures Decode(rd, Received(one, b)) == DecodeBody(rd, h, one.pending + b, one.content)
  {
    if one.pending + b == [] { assert one.content + [] == one.content; }
  }

  lemma {:induction false} ChunksShrink(size: SizeReader, v: seq<byte>)
    ensures |Chunks(size, v).rest| <= |v|
    decreases |v|
  {
    if !Ends(size, v) && Next(size, v).Piece? {
      ChunksShrink(size, Next(size, v).rest);
    }
  }

  lemma DecodeShrinks(rd: Reader, r: Response)
    ensures |Decode(rd, r).0.pending| <= |r.pending|
  {
    if r.phase.Opening? {
      ChunksShrink(rd.size, r.pending[HeadLength(r.pending)..]);
    } else {
      ChunksShrink(rd.size, r.pending);
    }
  }

  /** The loop of doRequest over what recv() delivers, until incrementDecode decides. */
  function Feed(rd: Reader, r: Response, pieces: seq<seq<byte>>): (Response, Verdict)
    decreases |pieces|
  {
    if pieces == [] then (r, More)
    else
      var one := Decode(rd, Received(r, pieces[0]));
      if one.1 == More then Feed(rd, one.0, pieces[1..]) else one
  }

  lemma {:induction false} FeedIsDecode(rd: Reader, r: Response, pieces: seq<seq<byte>>)
    requires Decode(rd, r) == (r, More)
    requires Streaming(rd, Received(r, Flat(pieces)))
    ensures Feed(rd, r, pieces).1 == Decode(rd, Received(r, Flat(pieces))).1
    ensures Feed(rd, r, pieces).0.content == Decode(rd, Received(r, Flat(pieces))).0.content
    decreases |pieces|
  {
    if pieces == [] {
      assert Received(r, []) == r;
    } else {
      var b, later := pieces[0], Flat(pieces[1..]);
      var first := Received(r, b);
      assert Received(first, later) == Received(r, b + later);
      DecodeSplit(rd, first, later);
      var one := Decode(rd, first);
      if one.1 == More {
        assert Received(first, []) == first && Received(one.0, []) == one.0;
        StreamingPrefix(rd, first, later);
        DecodeSplit(rd, first, []);
        FeedIsDecode(rd, one.0, pieces[1..]);
      }
    }
  }

  lemma StreamingPrefix(rd: Reader, r: Response, b: seq<byte>)
    requires Streaming(rd, Received(r, b))
    ensures Streaming(rd, r)
  {
    var v := r.pending;
    if r.phase.Opening? && HeadLength(v) > 0 {
      FindExtends(v, b, HEADER_END);
      assert (v + b)[..HeadLength(v)] == v[..HeadLength(v)];
    }
  }

  /** However the bytes of a chunked response are cut, the verdict and the content are the same. */
  lemma CutDoesNotMatter(rd: Reader, one: seq<seq<byte>>, other: seq<seq<byte>>)
    requires Flat(one) == Flat(other)
    requires Streaming(rd, Received(START, Flat(one)))
    ensures Feed(rd, START, one).1 == Feed(rd, START, other).1
    ensures Feed(rd, START, one).0.content == Feed(rd, START, other).0.content
  {
    FeedIsDecode(rd, START, one);
    FeedIsDecode(rd, START, other);
  }

  /** A chunked response of which whole chunks and then tail have come, in any pieces: the verdict is that it
      is complete exactly when the line that ends the body is next, and its content is the payload of the
      chunks either way. */
  lemma ResponseDecided(rd: Reader, header: seq<byte>, parts: seq<Part>, tail: seq<byte>, pieces: seq<seq<byte>>)
    requires Flat(pieces) == header + (Begun(parts) + tail)
    requires |header| > 0 && HeadLength(header + (Begun(parts) + tail)) == |header|
    requires var h := rd.head(header);
             && h.Head? && h.chunked && h.status != 204 && h.status != 304
             && !((h.status == 301 || h.status == 302) && h.location)
    requires (forall i :: 0 <= i < |parts| ==> parts[i].Ok(rd.size)) && !Next(rd.size, tail).Piece?
    ensures Feed(rd, START, pieces).1 == if Ends(rd.size, tail) then Done else More
    ensures Feed(rd, START, pieces).0.content == Payload(parts)
  {
    ChunksBegun(rd.size, parts, tail);
    BodyDecoded(rd, header, Begun(parts) + tail, pieces);
  }

  lemma BodyDecoded(rd: Reader, header: seq<byte>, body: seq<byte>, pieces: seq<seq<byte>>)
    requires Flat(pieces) == header + body && |header| > 0 && HeadLength(header + body) == |header|
    requires var h := rd.head(header);
             && h.Head? && h.chunked && h.status != 204 && h.status != 304
             && !((h.status == 301 || h.status == 302) && h.location)
    ensures Feed(rd, START, pieces).1 == if Chunks(rd.size, body).last then Done else More
    ensures Feed(rd, START, pieces).0.content == Chunks(rd.size, body).content
  {
    assert [] + (header + body) == header + body;
    DecodeWhole(rd, header, body);
    FeedIsDecode(rd, START, pieces);
    assert [] + Chunks(rd.size, body).content == Chunks(rd.size, body).content;
  }

  /** So a complete chunked response, in any pieces and with anything behind it, is decoded to the payload of
      its chunks. */
  lemma ResponseDelivered(rd: Reader, header: seq<byte>, parts: seq<Part>, last: seq<byte>, tail: seq<byte>,
                          pieces: seq<seq<byte>>)
    requires Flat(pieces) == header + (Sent(parts, last) + tail)
    requires |header| > 0 && HeadLength(header + (Sent(parts, last) + tail)) == |header|
    requires var h := rd.head(header);
             && h.Head? && h.chunked && h.status != 204 && h.status != 304
             && !((h.status == 301 || h.status == 302) && h.location)
    requires (forall i :: 0 <= i < |parts| ==> parts[i].Ok(rd.size)) && PlainLine(last) && rd.size(last) <= 0
    ensures Feed(rd, START, pieces).1 == Done
    ensures Feed(rd, START, pieces).0.content == Payload(parts)
  {
    ChunksPayload(rd.size, parts, last, tail);
    BodyDecoded(rd, header, Sent(parts, last) + tail, pieces);
  }

  lemma DecodeWhole(rd: Reader, header: seq<byte>, body: seq<byte>)
    requires |header| > 0 && HeadLength(header + body) == |header|
    requires var h := rd.head(header);
             && h.Head? && h.chunked && h.status != 204 && h.status != 304
             && !((h.status == 301 || h.status == 302) && h.location)
    ensures Streaming(rd, Response(Opening, header + body, []))
    ensures Decode(rd, Response(Opening, header + body, [])) == DecodeBody(rd, rd.head(header), body, [])
  {
    var v := header + body;
    assert v[..|header|] == header && v[|header|..] == body;
  }

  // ----- what the buffer can do -----

  /** No buffer is as long. */
  const LONGEST := 0x8000_0000_0000_0000

  /** The size lines that the loop takes off fit 32 bits, so that moveHeader is exact; what it takes off
      besides is an int. */
  predicate ShortLines(size: SizeReader, v: seq<byte>)
    decreases |v|
  {
    Next(size, v).Piece? ==> Find(v, CRLF) + 2 < UINT32 && ShortLines(size, Next(size, v).rest)
  }

  /** And so does the header. */
  predicate Short(rd: Reader, r: Response) {
    match r.phase
    case Opening =>
      var n := HeadLength(r.pending);
      n < UINT32 && (n > 0 ==> ShortBody(rd, rd.head(r.pending[..n]), r.pending[n..]))
    case Body(h) => ShortBody(rd, h, r.pending)
  }

  predicate ShortBody(rd: Reader, h: Head, v: seq<byte>) {
    h.Head? && h.chunked ==> ShortLines(rd.size, v)
  }

  lemma {:induction false} ShortLinesSplit(size: SizeReader, a: seq<byte>, b: seq<byte>)
    requires ShortLines(size, a + b)
    ensures ShortLines(size, a) && (!Chunks(size, a).last ==> ShortLines(size, Chunks(size, a).rest + b))
    decreases |a|
  {
    if Next(size, a).Piece? {
      NextExtends(size, a, b);
      FindExtends(a, b, CRLF);
      ShortLinesSplit(size, Next(size, a).rest, b);
    }
  }

  /** In fewer than 2^32 bytes everything is short. */
  lemma {:induction false} FewBytesShort(size: SizeReader, v: seq<byte>)
    requires |v| < UINT32
    ensures ShortLines(size, v)
    decreases |v|
  {
    if Next(size, v).Piece? {
      FewBytesShort(size, Next(size, v).rest);
    }
  }

  lemma ShortResponse(rd: Reader, r: Response)
    requires |r.pending| < UINT32
    ensures Short(rd, r)
  {
    FewBytesShort(rd.size, r.pending);
    FewBytesShort(rd.size, r.pending[HeadLength(r.pending)..]);
  }

  lemma ShortBodySplit(rd: Reader, h: Head, v: seq<byte>, content: seq<byte>, b: seq<byte>)
    requires h.Head? && ShortBody(rd, h, v + b)
    ensures ShortBody(rd, h, v)
    ensures var one := DecodeBody(rd, h, v, content);
            one.1 == More ==> ShortBody(rd, h, one.0.pending + b)
  {
    if h.chunked {
      ShortLinesSplit(rd.size, v, b);
    }
  }

  /** Whatever part of the bytes has been decoded, what is left is short too. */
  lemma ShortSplit(rd: Reader, r: Response, b: seq<byte>)
    requires Short(rd, Received(r, b))
    ensures Short(rd, r)
    ensures Decode(rd, r).1 == More ==> Short(rd, Received(Decode(rd, r).0, b))
  {
    var v := r.pending;
    if r.phase.Opening? {
      var n := HeadLength(v);
      if n > 0 {
        HeadStays(v, b);
        ShortAfterHead(rd, rd.head(v[..n]), v, n, r.content, b);
      }
    } else if r.phase.head.Head? {
      ShortBodySplit(rd, r.phase.head, v, r.content, b);
    }
  }

  lemma ShortAfterHead(rd: Reader, h: Head, v: seq<byte>, n: nat, content: seq<byte>, b: seq<byte>)
    requires n <= |v| && ShortBody(rd, h, v[n..] + b)
    ensures ShortBody(rd, h, v[n..])
    ensures var one := AfterHead(rd, h, v, n, content);
            one.1 == More ==> one.0.phase == Body(h) && ShortBody(rd, h, one.0.pending + b)
  {
    if h.Head? {
      ShortBodySplit(rd, h, v[n..], content, b);
    }
  }

  lemma HeadStays(v: seq<byte>, b: seq<byte>)
    requires HeadLength(v) > 0
    ensures var n := HeadLength(v); HeadLength(v + b) == n && (v + b)[..n] == v[..n] && (v + b)[n..] == v[n..] + b
  {
    FindExtends(v, b, HEADER_END);
  }

  // ----- the decoder, in place -----

  class HttpResponse {
    const reader: Reader
    var phase: Phase
    var content: seq<byte>

    constructor (rd: Reader)
      ensures reader == rd && phase == Opening && content == []
    {
      reader, phase, content := rd, Opening, [];
    }

    ghost function State(buff: NetworkBuffer): Response
      reads this, buff, buff.bufferList
      requires buff.Valid()
    {
      Response(phase, buff.View(), content)
    }

    /** incrementDecode, on the segmented buffer. */
    method IncrementDecode(buff: NetworkBuffer) returns (verdict: Verdict)
      requires buff.Valid() && |buff.View()| < LONGEST && Short(reader, State(buff))
      modifies this, buff, buff.Owned()
      ensures buff.Valid() && fresh(buff.Owned() - old(buff.Owned()))
      ensures (State(buff), verdict) == Decode(reader, old(State(buff)))
    {
      if buff.length == 0 {
        return More;
      }
      if phase.Opening? {
        verdict := ReadHead(buff);
      } else if phase.head.BadHead? {
        verdict := Thrown;
      } else {
        verdict := ReadBody(buff);
      }
    }

    /** One turn of doRequest's loop; later is what is still to come. */
    method Receive(buff: NetworkBuffer, bytes: seq<byte>, ghost later: seq<byte>) returns (verdict: Verdict)
      requires buff.Valid() && |buff.View()| + |bytes| < LONGEST
      requires Short(reader, Received(State(buff), bytes + later))
      modifies this, buff, buff.Owned()
      ensures buff.Valid() && fresh(buff.Owned() - old(buff.Owned()))
      ensures (State(buff), verdict) == Decode(reader, Received(old(State(buff)), bytes))
      ensures |buff.View()| <= |old(buff.View())| + |bytes|
      ensures verdict == More ==>
                Short(reader, Received(State(buff), later)) && Decode(reader, State(buff)) == (State(buff), More)
    {
      ghost var r := Received(State(buff), bytes);
      assert Received(r, later) == Received(State(buff), bytes + later);
      ShortSplit(reader, r, later);
      buff.AddBytes(bytes);
      DecodeShrinks(reader, r);
      verdict := IncrementDecode(buff);
      if verdict == More {
        DecodeAgain(reader, r);
      }
    }

    method ReadHead(buff: NetworkBuffer) returns (verdict: Verdict)
      requires buff.Valid() && 0 < |buff.View()| < LONGEST && phase.Opening? && Short(reader, State(buff))
      modifies this, buff, buff.Owned()
      ensures buff.Valid() && fresh(buff.Owned() - old(buff.Owned()))
      ensures (State(buff), verdict) == Decode(reader, old(State(buff)))
    {
      var n, header := FindHead(buff);
      if n == 0 {
        return More;
      }
      phase := Body(reader.head(header));
      if phase.head.BadHead? {
        return Thrown;
      }
      if phase.head.NoBody() {
        return Done;
      }
      var moved := buff.Skip(n);
      if phase.head.Redirect() {
        return Done;
      }
      verdict := ReadBody(buff);
    }

    method FindHead(buff: NetworkBuffer) returns (n: nat, header: seq<byte>)
      requires buff.Valid()
      modifies buff
      ensures buff.Valid() && fresh(buff.Owned() - old(buff.Owned()))
      ensures buff.View() == old(buff.View()) && n == HeadLength(buff.View()) && header == buff.View()[..n]
    {
      buff.MergeBuffers();
      var at := Search(buff, HEADER_END);
      if at == buff.length {
        return 0, [];
      }
      n := at + 4;
      assert n == HeadLength(buff.View());
      var ok;
      ok, header := buff.GetHeader(n);
    }

    method ReadBody(buff: NetworkBuffer) returns (verdict: Verdict)
      requires buff.Valid() && |buff.View()| < LONGEST && phase.Body? && phase.head.Head?
      requires ShortBody(reader, phase.head, buff.View())
      modifies this, buff, buff.Owned()
      ensures buff.Valid() && buff.Owned() <= old(buff.Owned())
      ensures (State(buff), verdict) == DecodeBody(reader, old(phase).head, old(buff.View()), old(content))
    {
      if phase.head.chunked {
        var last := ReadChunks(buff);
        verdict := if last then Done else More;
      } else if phase.head.length == 0 {
        TakeAll(buff);
        verdict := Done;
      } else if phase.head.length == -1 {
        if phase.head.status == 304 || phase.head.status == 302 {
          return Done;
        }
        TakeAll(buff);
        verdict := More;
      } else {
        TakeAll(buff);
        verdict := if phase.head.length > |content| then More else Done;
      }
    }

    method TakeAll(buff: NetworkBuffer)
      requires buff.Valid()
      modifies this`content, buff
      ensures buff.Valid() && buff.Owned() <= old(buff.Owned())
      ensures buff.View() == [] && content == old(content) + old(buff.View())
    {
      var bytes := buff.GetAll();
      content := content + bytes;
      buff.ClearBuffers();
    }

    /** The chunk loop. */
    method ReadChunks(buff: NetworkBuffer) returns (last: bool)
      requires buff.Valid() && |buff.View()| < LONGEST && ShortLines(reader.size, buff.View())
      modifies this`content, buff, buff.Owned()
      ensures buff.Valid() && buff.Owned() <= old(buff.Owned())
      ensures var c := Chunks(reader.size, old(buff.View()));
              last == c.last && content == old(content) + c.content && buff.View() == c.rest
    {
      while true
        invariant buff.Valid() && |buff.View()| < LONGEST && ShortLines(reader.size, buff.View())
        invariant buff.Owned() <= old(buff.Owned())
        invariant Rest(buff) == old(Rest(buff))
        decreases |buff.View()|
      {
        var step := TakeChunk(buff);
        if step == Wait {
          return false;
        }
        if step == Last {
          break;
        }
      }
      buff.ClearBuffers();
      last := true;
    }

    ghost function Rest(buff: NetworkBuffer): Chunked
      reads this, buff, buff.bufferList
      requires buff.Valid()
    {
      After(reader.size, content, buff.View())
    }

    method TakeChunk(buff: NetworkBuffer) returns (step: Turn)
      requires buff.Valid() && |buff.View()| < LONGEST && ShortLines(reader.size, buff.View())
      modifies this`content, buff, buff.Owned()
      ensures buff.Valid() && buff.Owned() <= old(buff.Owned())
      ensures Rest(buff) == old(Rest(buff))
      ensures step == One ==> |buff.View()| < |old(buff.View())| && ShortLines(reader.size, buff.View())
      ensures step == Last ==> Rest(buff) == Chunked(content, [], true)
      ensures step == Wait ==> Rest(buff) == Chunked(content, buff.View(), false)
    {
      var chunk;
      ghost var v := buff.View();
      step, chunk := NextChunk(buff);
      OneTurn(reader.size, v, content);
      if step == One {
        content := content + chunk;
      }
    }

    /** The chunk-size line at the front: its length, and the size it states. */
    method ReadSize(buff: NetworkBuffer) returns (found: bool, at: nat, size: Int32)
      requires buff.Valid()
      ensures at == Find(buff.View(), CRLF) && found == (at < |buff.View()|)
      ensures found ==> at + 2 <= |buff.View()| && size == reader.size(buff.View()[..at])
      ensures Next(reader.size, buff.View()) == if found then CutBehind(buff.View(), at, size) else NotYet
      ensures Ends(reader.size, buff.View()) <==> found && size <= 0
    {
      at := Search(buff, CRLF);
      found := at != buff.length;
      size := 0;
      if found {
        FindFirst(buff.View(), CRLF);
        var ok, header := buff.GetHeader(at);
        size := reader.size(header);
      }
    }

    /** One turn of the loop: a complete chunk is taken off the buffer. */
    method NextChunk(buff: NetworkBuffer) returns (step: Turn, chunk: seq<byte>)
      requires buff.Valid() && |buff.View()| < LONGEST
      requires Next(reader.size, buff.View()).Piece? ==> Find(buff.View(), CRLF) + 2 < UINT32
      modifies buff, buff.Owned()
      ensures buff.Valid() && buff.Owned() <= old(buff.Owned())
      ensures step == Last <==> Ends(reader.size, old(buff.View()))
      ensures step == One ==> Next(reader.size, old(buff.View())) == Piece(chunk, buff.View())
      ensures step == Wait ==> Next(reader.size, old(buff.View())) == NotYet
      ensures step != One ==> buff.View() == old(buff.View())
    {
      var found, at, iChunkSize := ReadSize(buff);
      if !found {
        return Wait, [];
      }
      if iChunkSize <= 0 {
        return Last, [];
      }
      if buff.length < at + 2 + iChunkSize + 2 {
        return Wait, [];
      }
      assert CutBehind(buff.View(), at, iChunkSize).Piece?;
      chunk := CutChunk(buff, at + 2, iChunkSize);
      step := One;
    }

    method CutChunk(buff: NetworkBuffer, n: nat, size: Int32) returns (chunk: seq<byte>)
      requires buff.Valid() && 0 < size && n < UINT32 && n + size + 2 <= |buff.View()| < LONGEST
      modifies buff, buff.Owned()
      ensures buff.Valid() && buff.Owned() <= old(buff.Owned())
      ensures chunk == old(buff.View())[n..n + size] && buff.View() == old(buff.View())[n + Moved(size)..]
    {
      ghost var v := buff.View();
      MovedExactly(size);
      assert v[n..][..size] == v[n..n + size] && v[n..][Moved(size)..] == v[n + Moved(size)..];
      var moved := buff.Skip(n);
      var ok;
      ok, chunk := buff.GetHeader(size);
      StepOver(buff, size);
    }

    /** moveHeader(iChunkSize + 2): the sum of two ints, as a 64-bit length. */
    method StepOver(buff: NetworkBuffer, size: Int32)
      requires buff.Valid() && 0 < size && size + 2 <= |buff.View()| < LONGEST
      modifies buff, buff.Owned()
      ensures buff.Valid() && buff.Owned() <= old(buff.Owned())
      ensures buff.View() == old(buff.View())[Moved(size)..]
    {
      MovedExactly(size);
      var sum: int := ToInt32(size + 2);
      var moved := buff.Skip(if sum < 0 then sum + 0x1_0000_0000_0000_0000 else sum);
    }
  }

  datatype Turn = One | Wait | Last

  const EM_SUCCESS := 0

  /** How recv() ends: the server closes, or there is an error. */
  datatype Ending = Closes | Fails(code: int)

  /** The receiving loop of doRequest, over the pieces recv() delivers before it ends; code is what
      doRequest returns unless decoding has thrown. A close makes it success, whether or not the response
      was complete. */
  method DoRequest(rd: Reader, pieces: seq<seq<byte>>, end: Ending) returns (rsp: HttpResponse, verdict: Verdict, code: int)
    requires |Flat(pieces)| < LONGEST && Short(rd, Received(START, Flat(pieces)))
    ensures fresh(rsp) && rsp.content == Feed(rd, START, pieces).0.content
    ensures verdict == Feed(rd, START, pieces).1
    ensures verdict == Done ==> code == EM_SUCCESS
    ensures verdict == More ==> code == match end case Closes => EM_SUCCESS case Fails(error) => error
  {
    rsp := new HttpResponse(rd);
    code := EM_SUCCESS;
    var buff := new NetworkBuffer();
    var i := 0;
    ghost var rest := pieces;
    while i < |pieces|
      invariant i <= |pieces| && rest == pieces[i..] && buff.Valid() && fresh(buff) && fresh(buff.Owned()) && fresh(rsp) && rsp.reader == rd
      invariant |buff.View()| + |Flat(rest)| < LONGEST && Short(rd, Received(rsp.State(buff), Flat(rest)))
      invariant Feed(rd, rsp.State(buff), rest) == Feed(rd, START, pieces)
      invariant Decode(rd, rsp.State(buff)) == (rsp.State(buff), More)
    {
      assert rest[0] == pieces[i];
      verdict := rsp.Receive(buff, pieces[i], Flat(rest[1..]));
      if verdict != More {
        return;
      }
      i, rest := i + 1, rest[1..];
    }
    verdict := More;
    match end {
      case Closes =>
        assert Received(rsp.State(buff), []) == rsp.State(buff);
        verdict := rsp.IncrementDecode(buff);
      case Fails(error) => code := error;
    }
  }
}
