/** Which responses have a body, and where it ends: by their status, by chunks, by a length, or by the end of
    the connection; and how a size line is read. */
module HttpBodies {
  import opened Basics
  import opened NetworkBuffers
  import opened HttpChunked

  // ----- the header -----

  /** A header goes up to and including the first empty line. */
  lemma HeaderEnds(v: seq<byte>)
    ensures var n := HeadLength(v);
            if n > 0 then
              && 4 <= n && v[n - 4..n] == [CR, LF, CR, LF]
              && forall j :: 0 <= j < n - 4 ==> !([CR, LF, CR, LF] <= v[j..])
            else forall j :: 0 <= j < |v| ==> !([CR, LF, CR, LF] <= v[j..])
  {
    FindFirst(v, HEADER_END);
    var k := Find(v, HEADER_END);
    if k < |v| {
      assert v[k..][..4] == v[k..k + 4];
    }
  }

  lemma HeaderStays(header: seq<byte>, a: seq<byte>, b: seq<byte>)
    requires HeadLength(header + a) == |header| > 0
    ensures HeadLength((header + a) + b) == |header|
    ensures ((header + a) + b)[..|header|] == header && ((header + a) + b)[|header|..] == a + b
  {
    FindExtends(header + a, b, HEADER_END);
  }

  // ----- responses without a body -----

  /** The statuses with which a response is over when its header is. */
  predicate OverAtHeader(h: Head)
    requires h.Head?
  {
    h.status == 204 || h.status == 304 || ((h.status == 301 || h.status == 302) && h.location)
  }

  /** Such a response is complete as soon as its header is, whatever follows, and has no content. */
  lemma BodylessIsDone(rd: Reader, header: seq<byte>, rest: seq<byte>, pieces: seq<seq<byte>>)
    requires Flat(pieces) == header + rest && HeadLength(header + rest) == |header| > 0
    requires rd.head(header).Head? && OverAtHeader(rd.head(header))
    ensures Feed(rd, START, pieces).1 == Done && Feed(rd, START, pieces).0.content == []
  {
    assert [] + (header + rest) == header + rest;
    assert (header + rest)[..|header|] == header;
    FeedIsDecode(rd, START, pieces);
  }

  /** A header that cannot be read ends the response with an exception. */
  lemma BadHeaderThrows(rd: Reader, header: seq<byte>, rest: seq<byte>, pieces: seq<seq<byte>>)
    requires Flat(pieces) == header + rest && HeadLength(header + rest) == |header| > 0
    requires rd.head(header).BadHead?
    ensures Feed(rd, START, pieces).1 == Thrown && Feed(rd, START, pieces).0.content == []
  {
    assert [] + (header + rest) == header + rest;
    assert (header + rest)[..|header|] == header;
    FeedIsDecode(rd, START, pieces);
  }

  // ----- bodies that are not chunked -----

  /** A response whose body is counted or goes on to the end of the connection. */
  predicate Plain(h: Head) {
    h.Head? && !OverAtHeader(h) && !h.chunked
  }

  /** Behind the header: what has come so far is content, and the verdict is out while bytes are missing. */
  lemma {:induction false} PlainGoesOn(rd: Reader, h: Head, content: seq<byte>, pieces: seq<seq<byte>>)
    requires Plain(h) && (h.length == -1 || h.length > |content|) && !(h.length == -1 && h.status == 302)
    requires h.length >= 0 ==> forall k :: 0 <= k < |pieces| ==> |content| + |Flat(pieces[..k])| < h.length
    ensures Feed(rd, Response(Body(h), [], content), pieces).0.content == content + Flat(pieces)
    ensures Feed(rd, Response(Body(h), [], content), pieces).1 ==
            if h.length == -1 || |content| + |Flat(pieces)| < h.length then More else Done
    decreases |pieces|
  {
    var r := Response(Body(h), [], content);
    if pieces == [] {
      assert content + [] == content;
    } else {
      var b := pieces[0];
      assert [] + b == b && pieces[..1] == [b] && Flat([b]) == b + Flat([]) == b + [];
      assert content + Flat(pieces) == (content + b) + Flat(pieces[1..]);
      assert b == [] ==> content + b == content;
      if |pieces| > 1 || h.length == -1 || |content + b| < h.length {
        forall k | 0 <= k < |pieces| - 1 && h.length >= 0
          ensures |content + b| + |Flat(pieces[1..][..k])| < h.length
        {
          assert pieces[..k + 1][1..] == pieces[1..][..k];
        }
        assert h.length >= 0 && |pieces| > 1 ==> |content + b| + |Flat(pieces[1..][..0])| < h.length;
        PlainGoesOn(rd, h, content + b, pieces[1..]);
      }
    }
  }

  /** What has become of a response that is not chunked when all of body has come behind its header. */
  predicate PlainOutcome(h: Head, body: seq<byte>, content: seq<byte>, verdict: Verdict)
    requires h.Head?
  {
    if h.length == 0 then verdict == Done && content <= body
    else if h.length == -1 && h.status == 302 then verdict == Done && content == []
    else content == body && verdict == if h.length == -1 || |body| < h.length then More else Done
  }

  /** The first piece that completes the header. */
  lemma HeadComes(rd: Reader, h: Head, c: seq<byte>, pieces: seq<seq<byte>>)
    requires Plain(h) && h.length >= -1
    requires h.length > 0 ==> forall k :: 0 <= k < |pieces| ==> |c| + |Flat(pieces[..k])| < h.length
    ensures var one := DecodeBody(rd, h, c, []);
            var (r, verdict) := if one.1 == More then Feed(rd, one.0, pieces) else one;
            PlainOutcome(h, c + Flat(pieces), r.content, verdict)
  {
    assert [] + c == c;
    var one := DecodeBody(rd, h, c, []);
    if one.1 == More {
      PlainGoesOn(rd, h, c, pieces);
    } else if pieces == [] {
      assert c + [] == c;
    } else {
      assert pieces[..0] == [];
    }
  }

  lemma BodySoFar(header: seq<byte>, body: seq<byte>, w: seq<byte>, later: seq<byte>) returns (c: seq<byte>)
    requires w + later == header + body && HeadLength(header + body) == |header| && HeadLength(w) > 0
    ensures HeadLength(w) == |header| && w == header + c && body == c + later
  {
    FindExtends(w, later, HEADER_END);
    var n := |header|;
    c := w[n..];
    assert w[..n] == (w + later)[..n] == header;
    assert (w + later)[n..] == c + later && (header + body)[n..] == body;
  }

  lemma PlainFrom(rd: Reader, header: seq<byte>, body: seq<byte>, v: seq<byte>, pieces: seq<seq<byte>>)
    requires v + Flat(pieces) == header + body && HeadLength(header + body) == |header| > 0 && HeadLength(v) == 0
    requires Plain(rd.head(header)) && rd.head(header).length >= -1
    requires rd.head(header).length > 0 ==>
               forall k :: 0 <= k < |pieces| ==> |v| + |Flat(pieces[..k])| < |header| + rd.head(header).length
    ensures var (r, verdict) := Feed(rd, Response(Opening, v, []), pieces);
            PlainOutcome(rd.head(header), body, r.content, verdict)
    decreases |pieces|
  {
    assert v + [] == v;
    if pieces != [] {
      var b, rest := pieces[0], pieces[1..];
      var w := v + b;
      assert w + Flat(rest) == v + Flat(pieces);
      forall k | 0 <= k < |rest| ensures |w| + |Flat(rest[..k])| == |v| + |Flat(pieces[..k + 1])| {
        assert pieces[..k + 1][0] == b && pieces[..k + 1][1..] == rest[..k];
      }
      if HeadLength(w) == 0 {
        PlainFrom(rd, header, body, w, rest);
      } else {
        var c := BodySoFar(header, body, w, Flat(rest));
        assert w[..|header|] == header && w[|header|..] == c;
        HeadComes(rd, rd.head(header), c, rest);
      }
    }
  }

  /** A response that is not chunked, from its first byte: counted, it is complete exactly when there are as many
      bytes behind its header, and until then, or uncounted until the connection ends, all that has come is its
      content. Pieces after the one that completes it are not read. */
  lemma PlainDecided(rd: Reader, header: seq<byte>, body: seq<byte>, pieces: seq<seq<byte>>)
    requires Flat(pieces) == header + body && HeadLength(header + body) == |header| > 0
    requires Plain(rd.head(header)) && rd.head(header).length >= -1
    requires rd.head(header).length > 0 ==>
               forall k :: 0 <= k < |pieces| ==> |Flat(pieces[..k])| < |header| + rd.head(header).length
    ensures PlainOutcome(rd.head(header), body, Feed(rd, START, pieces).0.content, Feed(rd, START, pieces).1)
  {
    assert [] + Flat(pieces) == Flat(pieces);
    PlainFrom(rd, header, body, [], pieces);
  }

  // ----- the size line -----

  lemma HexDigits(k: nat)
    requires k < 16
    ensures k < 10 ==> HexDigit('0' as int + k) == k
    ensures k >= 10 ==> HexDigit('a' as int + k - 10) == HexDigit('A' as int + k - 10) == k
  {
  }

  /** And nothing else is a digit, or a blank. */
  lemma OtherBytes(c: byte)
    ensures HexDigit(c) >= 0 <==> 48 <= c <= 57 || 97 <= c <= 102 || 65 <= c <= 70
    ensures IsSpace(c) <==> c == 32 || 9 <= c <= 13
  {
  }

  lemma {:induction false} HexStops(digits: seq<byte>, tail: seq<byte>, acc: nat)
    requires forall i :: 0 <= i < |digits| ==> HexDigit(digits[i]) >= 0
    requires tail != [] ==> HexDigit(tail[0]) < 0
    ensures HexValue(digits + tail, acc) == HexValue(digits, acc)
  {
    if digits == [] {
      assert digits + tail == tail;
    } else {
      assert (digits + tail)[1..] == digits[1..] + tail;
      HexStops(digits[1..], tail, acc * 16 + HexDigit(digits[0]));
    }
  }

  lemma {:induction false} BlanksSkipped(blanks: seq<byte>, s: seq<byte>)
    requires forall i :: 0 <= i < |blanks| ==> blanks[i] == 32 || 9 <= blanks[i] <= 13
    ensures StrToL16(blanks + s) == StrToL16(s)
  {
    if blanks == [] {
      assert blanks + s == s;
    } else {
      assert (blanks + s)[1..] == blanks[1..] + s;
      BlanksSkipped(blanks[1..], s);
    }
  }

  /** A chunk size is read from blanks, digits in either case, and an extension, which is skipped. */
  lemma SizeWithExtension(blanks: seq<byte>, digits: seq<byte>, extension: seq<byte>)
    requires forall i :: 0 <= i < |blanks| ==> blanks[i] == 32 || 9 <= blanks[i] <= 13
    requires digits != [] && forall i :: 0 <= i < |digits| ==> HexDigit(digits[i]) >= 0
    requires extension != [] ==> HexDigit(extension[0]) < 0 && extension[0] !in ['x' as int, 'X' as int]
    ensures StrToL16(blanks + (digits + extension)) ==
            if HexValue(digits, 0) > LONG_MAX then LONG_MAX else HexValue(digits, 0)
  {
    var s := digits + extension;
    BlanksSkipped(blanks, s);
    HexStops(digits, extension, 0);
    assert s[0] == digits[0];
    assert |s| > 1 ==> s[1] == if |digits| > 1 then digits[1] else extension[0];
  }

  /** The digits may stand behind 0x. */
  lemma PrefixedSize(x: byte, digits: seq<byte>, extension: seq<byte>)
    requires x == 'x' as int || x == 'X' as int
    requires digits != [] && forall i :: 0 <= i < |digits| ==> HexDigit(digits[i]) >= 0
    requires extension != [] ==> HexDigit(extension[0]) < 0
    ensures StrToL16(['0' as int, x] + (digits + extension)) ==
            if HexValue(digits, 0) > LONG_MAX then LONG_MAX else HexValue(digits, 0)
  {
    var s := digits + extension;
    var t := ['0' as int, x] + s;
    HexStops(digits, extension, 0);
    assert t[2] == s[0] == digits[0] && t[2..] == s && t[0] == '0' as int && t[1] == x;
  }

  /** A minus sign makes a size the loop takes for the last. */
  lemma NegativeSizeEnds(digits: seq<byte>, extension: seq<byte>)
    requires digits != [] && forall i :: 0 <= i < |digits| ==> HexDigit(digits[i]) >= 0
    requires extension != [] ==> HexDigit(extension[0]) < 0 && extension[0] !in ['x' as int, 'X' as int]
    ensures StrToL16(['-' as int] + (digits + extension)) ==
            if HexValue(digits, 0) > LONG_MAX + 1 then -LONG_MAX - 1 else -(HexValue(digits, 0) as int)
  {
    var s := digits + extension;
    HexStops(digits, extension, 0);
    assert (['-' as int] + s)[1..] == s && s[0] == digits[0];
    assert |s| > 1 ==> s[1] == if |digits| > 1 then digits[1] else extension[0];
  }
}
