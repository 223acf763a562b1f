/** The segmented receive/send buffer: a list of partly consumed chunks that must behave as one flat
    byte sequence. The functions on seq<seq<byte>> say what happens to the unconsumed parts of the
    chunks; the classes do it in place. */
module NetworkBuffers {

  import opened Basics

  // ----- the flat view -----

  function Flat(rs: seq<seq<byte>>): seq<byte> {
    if rs == [] then [] else rs[0] + Flat(rs[1..])
  }

  lemma {:induction false} FlatAppend(rs: seq<seq<byte>>, ss: seq<seq<byte>>)
    ensures Flat(rs + ss) == Flat(rs) + Flat(ss)
  {
    if rs == [] {
      assert rs + ss == ss;
    } else {
      assert rs + ss == [rs[0]] + (rs[1..] + ss);
      FlatAppend(rs[1..], ss);
    }
  }

  lemma FlatOne(r: seq<byte>)
    ensures Flat([r]) == r
  {
    assert Flat([r]) == r + Flat([]);
  }

  lemma FlatTake(rs: seq<seq<byte>>, k: nat)
    requires k < |rs|
    ensures Flat(rs[..k + 1]) == Flat(rs[..k]) + rs[k]
    ensures |Flat(rs[..k + 1])| <= |Flat(rs)|
    ensures Flat(rs)[..|Flat(rs[..k + 1])|] == Flat(rs[..k + 1])
  {
    assert rs[..k + 1] == rs[..k] + [rs[k]];
    FlatAppend(rs[..k], [rs[k]]);
    FlatOne(rs[k]);
    assert rs == rs[..k + 1] + rs[k + 1..];
    FlatAppend(rs[..k + 1], rs[k + 1..]);
  }

  // ----- dropping bytes from the front -----

  /** moveHeader on the unconsumed parts: whole chunks go, the next one is advanced. The advance is
      passed on as a 32-bit number. */
  function Dropped(rs: seq<seq<byte>>, len: nat): seq<seq<byte>>
    decreases |rs|
  {
    if len == 0 || rs == [] then rs
    else if |rs[0]| > len then
      assert len % UINT32 <= len;
      [rs[0][len % UINT32..]] + rs[1..]
    else if |rs[0]| == len then rs[1..]
    else Dropped(rs[1..], len - |rs[0]|)
  }

  /** How far into a chunk the cut falls; 0 when it falls between two chunks. */
  function Advance(rs: seq<seq<byte>>, len: nat): nat
    decreases |rs|
  {
    if len == 0 || rs == [] || |rs[0]| == len then 0
    else if |rs[0]| > len then len
    else Advance(rs[1..], len - |rs[0]|)
  }

  lemma {:induction false} AdvanceBound(rs: seq<seq<byte>>, len: nat)
    ensures Advance(rs, len) <= len
    decreases |rs|
  {
    if len != 0 && rs != [] && |rs[0]| < len {
      AdvanceBound(rs[1..], len - |rs[0]|);
    }
  }

  /** moveHeader(len) drops exactly len bytes exactly when the advance fits 32 bits; otherwise more
      than the right number of bytes is left behind. */
  lemma {:induction false} DroppedExactly(rs: seq<seq<byte>>, len: nat)
    requires len <= |Flat(rs)|
    ensures Flat(Dropped(rs, len)) == Flat(rs)[len..] <==> Advance(rs, len) < UINT32
    ensures |Flat(Dropped(rs, len))| >= |Flat(rs)| - len
    ensures |Flat(Dropped(rs, len))| == |Flat(rs)| - len <==> Advance(rs, len) < UINT32
    decreases |rs|
  {
    if len == 0 || rs == [] {
    } else if |rs[0]| > len {
      var cut := rs[0][len % UINT32..];
      assert Dropped(rs, len) == [cut] + rs[1..];
      assert ([cut] + rs[1..])[1..] == rs[1..];
      assert Flat(Dropped(rs, len)) == cut + Flat(rs[1..]);
      if len < UINT32 {
        assert Flat(rs)[len..] == rs[0][len..] + Flat(rs[1..]);
      }
    } else {
      assert Flat(rs)[len..] == Flat(rs[1..])[len - |rs[0]|..];
      if |rs[0]| < len { DroppedExactly(rs[1..], len - |rs[0]|); }
    }
  }

  /** For example from a chunk of 2^32 + 1 bytes 2^32 are to be dropped, and none is. */
  lemma NothingDropped()
    ensures var chunk := seq(UINT32 + 1, k => 0);
            && Dropped([chunk], UINT32) == [chunk]
            && Flat(Dropped([chunk], UINT32)) != Flat([chunk])[UINT32..]
  {
    var chunk: seq<byte> := seq(UINT32 + 1, k => 0);
    FlatOne(chunk);
    assert chunk[0..] == chunk && [chunk][1..] == [];
  }

  lemma {:induction false} DroppedNonEmpty(rs: seq<seq<byte>>, len: nat)
    requires forall k :: 0 <= k < |rs| ==> rs[k] != []
    ensures forall k :: 0 <= k < |Dropped(rs, len)| ==> Dropped(rs, len)[k] != []
    decreases |rs|
  {
    if len == 0 || rs == [] {
    } else if |rs[0]| < len {
      DroppedNonEmpty(rs[1..], len - |rs[0]|);
    }
  }

  // ----- positions -----

  /** The chunk and the place in it that offset n falls on; one past the last chunk for the end. */
  function Locate(rs: seq<seq<byte>>, n: nat): (nat, nat)
    decreases |rs|
  {
    if rs == [] then (0, 0)
    else if n < |rs[0]| then (0, n)
    else var p := Locate(rs[1..], n - |rs[0]|); (p.0 + 1, p.1)
  }

  /** An offset inside the buffer is located at the byte with that index. */
  lemma {:induction false} LocateReads(rs: seq<seq<byte>>, n: nat)
    ensures var (it, pos) := Locate(rs, n);
            if n < |Flat(rs)| then it < |rs| && pos < |rs[it]| && rs[it][pos] == Flat(rs)[n]
            else it == |rs| && pos == 0
    decreases |rs|
  {
    if rs != [] && n >= |rs[0]| {
      LocateReads(rs[1..], n - |rs[0]|);
    }
  }

  /** Stepping from a located position, within the chunk or on to the next one, is the same as
      locating the next offset: the iterator's ++ agrees with its + 1. */
  lemma {:induction false} LocateNext(rs: seq<seq<byte>>, n: nat)
    requires n < |Flat(rs)|
    requires forall k :: 0 <= k < |rs| ==> rs[k] != []
    ensures var (it, pos) := Locate(rs, n);
            && it < |rs|
            && Locate(rs, n + 1) == if pos < |rs[it]| - 1 then (it, pos + 1) else (it + 1, 0)
    decreases |rs|
  {
    if n >= |rs[0]| {
      LocateNext(rs[1..], n - |rs[0]|);
    } else if n + 1 == |rs[0]| && rs[1..] != [] {
      assert rs[1..][0] != [];
    }
  }

  lemma {:induction false} LocateEnd(rs: seq<seq<byte>>, n: nat)
    requires n >= |Flat(rs)|
    ensures Locate(rs, n) == (|rs|, 0)
    decreases |rs|
  {
    if rs != [] { LocateEnd(rs[1..], n - |rs[0]|); }
  }

  /** Two positions are the same place exactly when they are the same offset, so comparing
      iterators by place is comparing them by offset. */
  lemma {:induction false} LocateInjective(rs: seq<seq<byte>>, n: nat, m: nat)
    requires n <= |Flat(rs)| && m <= |Flat(rs)|
    requires forall k :: 0 <= k < |rs| ==> rs[k] != []
    ensures Locate(rs, n) == Locate(rs, m) <==> n == m
    decreases |rs|
  {
    if rs != [] {
      if n >= |rs[0]| && m >= |rs[0]| {
        LocateInjective(rs[1..], n - |rs[0]|, m - |rs[0]|);
      }
    }
  }

  // ----- one chunk -----

  class Buffer {
    var buffer: seq<byte>
    var pos: nat

    constructor (bytes: seq<byte>)
      ensures buffer == bytes && pos == 0
    {
      buffer, pos := bytes, 0;
    }

    ghost predicate Ok()
      reads this
    {
      pos <= |buffer|
    }

    function Rest(): seq<byte>
      reads this
      requires Ok()
    {
      buffer[pos..]
    }

    /** add(uint32_t): the argument arrives reduced to 32 bits. */
    method Add(ret: nat)
      requires Ok() && pos + ret % UINT32 <= |buffer|
      modifies this`pos
      ensures Ok() && pos == old(pos) + ret % UINT32
      ensures Rest() == old(Rest())[ret % UINT32..]
    {
      pos := pos + ret % UINT32;
      assert pos <= |buffer|;
    }
  }

  // ----- the list of chunks -----

  class NetworkBuffer {
    var bufferList: seq<Buffer>
    var length: nat

    constructor ()
      ensures Valid() && View() == [] && bufferList == []
    {
      bufferList, length := [], 0;
    }

    ghost predicate Chunks()
      reads this, bufferList
    {
      && (forall i, j :: 0 <= i < j < |bufferList| ==> bufferList[i] != bufferList[j])
      && (forall i :: 0 <= i < |bufferList| ==> bufferList[i].Ok())
    }

    ghost function Rests(): (rs: seq<seq<byte>>)
      reads this, bufferList
      requires Chunks()
      ensures |rs| == |bufferList|
      ensures forall i :: 0 <= i < |rs| ==> rs[i] == bufferList[i].Rest()
    {
      seq(|bufferList|, i requires 0 <= i < |bufferList| && bufferList[i].Ok() reads this, bufferList => bufferList[i].Rest())
    }

    /** No chunk is shared or empty, and the length is that of the view. */
    ghost predicate Valid()
      reads this, bufferList
    {
      && Chunks()
      && (forall i :: 0 <= i < |Rests()| ==> Rests()[i] != [])
      && length == |Flat(Rests())|
    }

    ghost function View(): seq<byte>
      reads this, bufferList
      requires Chunks()
    {
      Flat(Rests())
    }

    method AddBuffer(buff: Buffer)
      requires Valid() && buff.Ok() && buff !in bufferList
      modifies this
      ensures Valid() && View() == old(View()) + buff.Rest()
      ensures Rests() == old(Rests()) + if buff.Rest() == [] then [] else [buff.Rest()]
      ensures bufferList == old(bufferList) || bufferList == old(bufferList) + [buff]
    {
      if buff.pos >= |buff.buffer| {
        assert old(Rests()) + [] == old(Rests());
        return;
      }
      FlatAppend(Rests(), [buff.Rest()]);
      FlatOne(buff.Rest());
      bufferList := bufferList + [buff];
      length := length + (|buff.buffer| - buff.pos);
      assert Rests() == old(Rests()) + [buff.Rest()];
    }

    method AddBytes(bytes: seq<byte>)
      requires Valid()
      modifies this
      ensures Valid() && View() == old(View()) + bytes
      ensures fresh(set b | b in bufferList && b !in old(bufferList))
    {
      if bytes == [] {
        return;
      }
      var buff := new Buffer(bytes);
      AddBuffer(buff);
    }

    method ClearBuffers()
      requires Valid()
      modifies this
      ensures Valid() && View() == [] && bufferList == []
    {
      bufferList := [];
      length := 0;
    }

    method GetBufferLength() returns (n: nat)
      requires Valid()
      ensures n == |View()|
    {
      n := length;
    }

    /** getBuffers(char *, size_t): copies the first len bytes, chunk by chunk. */
    method GetBuffers(out: array<byte>, len: nat) returns (pos: nat)
      requires Valid() && len <= |View()| && len <= out.Length
      modifies out
      ensures pos == len && out[..len] == View()[..len]
    {
      var it: nat, left: nat := 0, len;
      pos := 0;
      ghost var rs := Rests();
      while it != |bufferList| && left != 0
        invariant it <= |bufferList| && pos + left == len && Rests() == rs
        invariant Taken(rs, it, out, pos, left == 0)
      {
        var n := CopyNext(out, pos, left, it);
        left := left - n;
        pos := pos + n;
        it := it + 1;
      }
      assert rs[..|rs|] == rs;
    }

    /** out holds the first pos bytes, all of the first it chunks unless the copy is done. */
    static ghost predicate Taken(rs: seq<seq<byte>>, it: nat, out: array<byte>, pos: nat, done: bool)
      reads out
    {
      && it <= |rs| && pos <= out.Length && pos <= |Flat(rs)|
      && out[..pos] == Flat(rs)[..pos]
      && (!done ==> pos == |Flat(rs[..it])|)
    }

    method CopyNext(out: array<byte>, pos: nat, left: nat, it: nat) returns (n: nat)
      requires Valid() && it < |bufferList| && left != 0 && pos + left <= |View()| && pos + left <= out.Length
      requires Taken(Rests(), it, out, pos, false)
      modifies out
      ensures n <= left && Taken(Rests(), it + 1, out, pos + n, n == left)
    {
      var chunk := bufferList[it].Rest();
      ghost var rs := Rests();
      n := if left < |chunk| then left else |chunk|;
      FlatTake(rs, it);
      assert Flat(rs)[pos..pos + |chunk|] == chunk by {
        assert Flat(rs)[..pos + |chunk|] == Flat(rs[..it]) + chunk;
      }
      CopyChunk(out, pos, chunk[..n]);
      assert Flat(rs)[..pos + n] == Flat(rs)[..pos] + chunk[..n];
    }

    /** memcpy */
    static method CopyChunk(out: array<byte>, pos: nat, bytes: seq<byte>)
      requires pos + |bytes| <= out.Length
      modifies out
      ensures out[..pos + |bytes|] == old(out[..pos]) + bytes
    {
      forall i | 0 <= i < |bytes| { out[pos + i] := bytes[i]; }
    }

    method GetAll() returns (bytes: seq<byte>)
      requires Valid()
      ensures bytes == View()
    {
      var out := new byte[length];
      var n := GetBuffers(out, length);
      bytes := out[..];
      assert out[..] == out[..length];
    }

    /** mergeBuffers: one chunk with the same bytes. */
    method MergeBuffers()
      requires Valid()
      modifies this
      ensures Valid() && View() == old(View())
      ensures |bufferList| <= 1 && fresh(Owned() - old(Owned()))
    {
      if |bufferList| > 1 {
        assert Rests()[0] != [];
        var bytes := GetAll();
        var merged := new Buffer(bytes);
        bufferList := [merged];
        FlatOne(bytes);
        assert Rests() == [bytes];
      }
    }

    method GetHeader(len: nat) returns (ok: bool, header: seq<byte>)
      requires Valid()
      ensures ok <==> len <= |View()|
      ensures ok ==> header == View()[..len]
    {
      if length < len {
        return false, [];
      }
      if len == 0 {
        return true, [];
      }
      var out := new byte[len];
      var n := GetBuffers(out, len);
      assert out[..] == out[..len];
      return true, out[..];
    }

    /** moveHeader: drops len bytes from the front; exactly len of them when len fits 32 bits. */
    method MoveHeader(len: nat) returns (ok: bool)
      requires Valid()
      modifies this, bufferList
      ensures ok <==> len <= old(length)
      ensures !ok ==> Valid() && View() == old(View())
      ensures Chunks() && Rests() == if ok then Dropped(old(Rests()), len) else old(Rests())
      ensures ok ==> length == old(length) - len
      ensures ok && len < UINT32 ==> Valid() && View() == old(View())[len..]
      ensures forall b :: b in bufferList ==> b in old(bufferList)
    {
      ghost var rs := Rests();
      ok := MoveChunks(len);
      if ok {
        DroppedExactly(rs, len);
        DroppedNonEmpty(rs, len);
        AdvanceBound(rs, len);
      }
    }

    ghost function Owned(): set<Buffer>
      reads this
    {
      set b | b in bufferList
    }

    /** moveHeader on the view: refused when there are fewer bytes, and exact below 2^32. */
    method Skip(len: nat) returns (ok: bool)
      requires Valid()
      modifies this, Owned()
      ensures ok <==> len <= |old(View())|
      ensures !ok ==> Valid() && View() == old(View())
      ensures ok && len < UINT32 ==> Valid() && View() == old(View())[len..]
      ensures Owned() <= old(Owned())
    {
      assert forall i :: 0 <= i < |bufferList| ==> bufferList[i] in Owned();
      ok := MoveHeader(len);
    }

    /** The recursion of moveHeader, chunk by chunk. */
    method MoveChunks(len: nat) returns (ok: bool)
      requires Valid()
      modifies this, bufferList
      ensures ok <==> len <= old(length)
      ensures Chunks() && Rests() == if ok then Dropped(old(Rests()), len) else old(Rests())
      ensures length == if ok then old(length) - len else old(length)
      ensures forall b :: b in bufferList ==> b in old(bufferList)
      decreases |bufferList|
    {
      if length < len {
        return false;
      }
      if len == 0 {
        return true;
      }
      assert Rests() != [];
      var left := |bufferList[0].buffer| - bufferList[0].pos;
      assert left == |Rests()[0]|;
      if left > len {
        AdvanceFirst(len);
        ok := true;
      } else {
        EraseFirst();
        ok := left == len;
        if !ok {
          ok := MoveChunks(len - left);
        }
      }
    }

    method AdvanceFirst(len: nat)
      requires Chunks() && bufferList != [] && len < |bufferList[0].Rest()| && len <= length
      modifies this, bufferList[0]
      ensures Chunks() && Rests() == [old(Rests())[0][len % UINT32..]] + old(Rests())[1..]
      ensures length == old(length) - len && bufferList == old(bufferList)
    {
      assert len % UINT32 <= len;
      bufferList[0].Add(len);
      length := length - len;
    }

    method EraseFirst()
      requires Valid() && bufferList != []
      modifies this
      ensures Valid() && Rests() == old(Rests())[1..]
      ensures length == old(length) - |old(Rests())[0]| && bufferList == old(bufferList)[1..]
    {
      length := length - (|bufferList[0].buffer| - bufferList[0].pos);
      bufferList := bufferList[1..];
      assert Rests() == old(Rests())[1..];
    }
  }

  // ----- reading byte by byte -----

  /** The first place at which sep occurs; the length of v when it does not occur. */
  function Find(v: seq<byte>, sep: seq<byte>): (k: nat)
    ensures k <= |v|
  {
    if v == [] || sep <= v then 0 else 1 + Find(v[1..], sep)
  }

  /** Find meets its description: sep is at k, and at no earlier place. */
  lemma {:induction false} FindFirst(v: seq<byte>, sep: seq<byte>)
    requires sep != []
    ensures var k := Find(v, sep);
            && (k < |v| ==> sep <= v[k..])
            && (forall j :: 0 <= j < |v| && sep <= v[j..] ==> k <= j)
  {
    if v != [] && !(sep <= v) {
      FindFirst(v[1..], sep);
      forall j | 0 <= j < |v| && sep <= v[j..] ensures Find(v, sep) <= j {
        assert v[0..] == v;
        assert j > 0 && v[j..] == v[1..][j - 1..];
      }
    }
  }

  lemma {:induction false} FindFrom(v: seq<byte>, sep: seq<byte>, n: nat)
    requires n <= |v|
    requires forall j :: 0 <= j < n ==> !(sep <= v[j..])
    ensures Find(v, sep) == n + Find(v[n..], sep)
  {
    assert v[0..] == v;
    if n > 0 {
      forall j | 0 <= j < n - 1 ensures !(sep <= v[1..][j..]) { assert v[1..][j..] == v[j + 1..]; }
      FindFrom(v[1..], sep, n - 1);
      assert v[1..][n - 1..] == v[n..];
    }
  }

  /** An iterator: the chunk it is in, the place in the chunk, and the offset in the whole buffer. */
  class BufferIterator {
    const buffer: NetworkBuffer
    var it: nat
    var pos: nat
    var offset: nat

    ghost predicate Points(n: nat)
      reads this, buffer, buffer.bufferList
    {
      && buffer.Valid() && n <= |buffer.View()|
      && offset == n && (it, pos) == Locate(buffer.Rests(), n)
    }

    constructor (b: NetworkBuffer, n: nat)
      requires b.Valid()
      ensures buffer == b && Points(if n <= |b.View()| then n else |b.View()|)
    {
      buffer := b;
      it, pos, offset := 0, 0, 0;
      new;
      ParseOffset(n);
    }

    /** The loop of parseOffset: the chunk that offset n falls in, and what is left of n there. */
    static method Walk(b: NetworkBuffer, n: nat) returns (i: nat, left: nat)
      requires b.Valid()
      ensures i <= |b.bufferList|
      ensures if i < |b.bufferList| then Locate(b.Rests(), n) == (i, left) && n < |b.View()|
              else n >= |b.View()|
    {
      ghost var rs := b.Rests();
      i, left := 0, n;
      assert rs[0..] == rs;
      var size := |b.bufferList|;
      while i != size && left >= |b.bufferList[i].Rest()|
        invariant i <= |b.bufferList|
        invariant left == n - (|Flat(rs)| - |Flat(rs[i..])|)
        invariant var p := Locate(rs[i..], left); Locate(rs, n) == (i + p.0, p.1)
      {
        assert rs[i..][0] == rs[i] && rs[i..][1..] == rs[i + 1..];
        left := left - |b.bufferList[i].Rest()|;
        i := i + 1;
      }
      if i != |b.bufferList| {
        assert rs[i..][0] == rs[i];
      } else {
        assert rs[i..] == [];
      }
    }

    method Place(n: nat, i: nat, p: nat)
      requires buffer.Valid() && n <= |buffer.View()| && Locate(buffer.Rests(), n) == (i, p)
      modifies this
      ensures Points(n)
    {
      offset, it, pos := n, i, p;
    }

    method ParseOffset(n: nat)
      requires buffer.Valid()
      modifies this
      ensures Points(if n <= |buffer.View()| then n else |buffer.View()|)
    {
      var i, left := Walk(buffer, n);
      if i != |buffer.bufferList| {
        Place(n, i, left);
      } else {
        LocateEnd(buffer.Rests(), |buffer.View()|);
        Place(buffer.length, |buffer.bufferList|, 0);
      }
    }

    /** operator* */
    method Read() returns (b: byte)
      requires Points(offset) && offset < |buffer.View()|
      ensures b == buffer.View()[offset]
    {
      LocateReads(buffer.Rests(), offset);
      b := buffer.bufferList[it].Rest()[pos];
    }

    /** operator++ */
    method Inc()
      requires Points(offset)
      modifies this
      ensures Points(if old(offset) < |buffer.View()| then old(offset) + 1 else old(offset))
    {
      if offset >= buffer.length {
        return;
      }
      ghost var rs := buffer.Rests();
      LocateNext(rs, offset);
      assert it != |buffer.bufferList|;
      assert buffer.bufferList[it].Rest() == rs[it];
      if pos < |buffer.bufferList[it].Rest()| - 1 {
        Place(offset + 1, it, pos + 1);
      } else {
        Place(offset + 1, it + 1, 0);
      }
    }

    /** operator+ */
    method Plus(n: nat) returns (r: BufferIterator)
      requires Points(offset)
      ensures fresh(r) && r.buffer == buffer
      ensures r.Points(if offset + n <= |buffer.View()| then offset + n else |buffer.View()|)
    {
      r := new BufferIterator(buffer, offset + n);
    }
  }

  lemma LongerPrefix(v: seq<byte>, from: nat, sep: seq<byte>, k: nat)
    requires k < |sep| && from + k <= |v| && sep[..k] <= v[from..]
    ensures sep[..k + 1] <= v[from..] <==> from + k < |v| && v[from + k] == sep[k]
    ensures sep <= v[from..] ==> sep[..k + 1] <= v[from..]
  {
    assert sep[..k + 1] == sep[..k] + [sep[k]];
    assert from + k < |v| ==> v[from..][k] == v[from + k];
  }

  /** One comparison of the search: steps on if the byte is the one looked for. */
  method Compare(i: BufferIterator, c: byte) returns (same: bool)
    requires i.Points(i.offset)
    modifies i
    ensures same <==> old(i.offset) < |i.buffer.View()| && i.buffer.View()[old(i.offset)] == c
    ensures same ==> i.Points(old(i.offset) + 1)
  {
    if i.offset >= i.buffer.length {
      return false;
    }
    var b := i.Read();
    same := b == c;
    if same {
      i.Inc();
    }
  }

  /** Whether the bytes from the iterator on start with sep. */
  method StartsWith(b: NetworkBuffer, from: nat, sep: seq<byte>) returns (yes: bool)
    requires b.Valid() && from <= |b.View()|
    ensures yes <==> sep <= b.View()[from..]
  {
    var i := new BufferIterator(b, from);
    var k := 0;
    while k < |sep|
      invariant k <= |sep| && from + k <= |b.View()| && i.buffer == b && i.Points(from + k)
      invariant sep[..k] <= b.View()[from..]
    {
      LongerPrefix(b.View(), from, sep, k);
      yes := Compare(i, sep[k]);
      if !yes {
        return;
      }
      k := k + 1;
    }
    assert sep[..k] == sep;
    yes := true;
  }

  /** std::search over the iterators from begin() to end(). */
  method Search(b: NetworkBuffer, sep: seq<byte>) returns (at: nat)
    requires b.Valid() && sep != []
    ensures at == Find(b.View(), sep)
  {
    at := 0;
    while at < b.length
      invariant at <= |b.View()|
      invariant forall j :: 0 <= j < at ==> !(sep <= b.View()[j..])
    {
      var yes := StartsWith(b, at, sep);
      if yes {
        break;
      }
      at := at + 1;
    }
    FindFrom(b.View(), sep, at);
  }
}
