/** The table of a network thread's connections: a slot array, a list of free slots, an ordered multimap
    of deadlines, and the 32-bit ids that pack a thread's magic number and a slot. */
module ConnectionLists {
  import opened Basics
  import opened Deadlines
  import opened SeqManagers

  // ----- ids -----

  const SLOTS := 0x400000

  /** The masks and shifts of the source, as the arithmetic used below. */
  lemma MasksAreArithmetic(x: bv32, magic: bv32, slot: bv32)
    requires magic % 0x400000 == 0 && slot < 0x400000
    ensures x & (0x7FFFFFFF >> 9) == x % 0x400000
    ensures x & (0xFFFFFFFF << 22) == x - x % 0x400000
    ensures magic | slot == magic + slot
    ensures (x << 26) & (0xFFFFFFFF << 26) == (x % 64) * 0x4000000
    ensures (x << 22) & (0xFFFFFFFF << 22) == (x % 1024) * 0x400000
  {
  }

  /** _iConnectionMagic: six bits of the start time above ten bits of the thread index, added. */
  function Magic(time: nat, index: nat): (m: nat)
    ensures m % SLOTS == 0 && m < UINT32
  {
    ((time % 64) * 0x4000000 + (index % 1024) * SLOTS) % UINT32
  }

  function MagicOf(id: nat): nat {
    id - id % SLOTS
  }

  function SlotOf(id: nat): nat {
    id % SLOTS
  }

  lemma IdDecodes(time: nat, index: nat, slot: nat)
    requires slot < SLOTS
    ensures MagicOf(Magic(time, index) + slot) == Magic(time, index)
    ensures SlotOf(Magic(time, index) + slot) == slot
    ensures Magic(time, index) + slot < UINT32
  {
  }

  lemma Multiple(n: int, k: int, r: int)
    requires n == 1024 * k + r
    ensures n % 1024 == r % 1024 && n % 1024 % 16 == n % 16
  {
    Residue(n, k + r / 1024, r % 1024);
    Sixteenth(n, n / 1024, n % 1024);
  }

  lemma Residue(n: int, k: int, r: int)
    requires n == 1024 * k + r && 0 <= r < 1024
    ensures n % 1024 == r
  {
  }

  lemma Sixteenth(n: int, k: int, r: int)
    requires n == 1024 * k + r
    ensures n % 16 == r % 16
  {
    var a, b := r / 16, r % 16;
    assert n == 16 * (64 * k + a) + b;
  }

  lemma Scaled(x: nat)
    ensures (x * SLOTS) % UINT32 == (x % 1024) * SLOTS
  {
    var q, r := x / 1024, x % 1024;
    assert x * SLOTS == q * UINT32 + r * SLOTS;
  }

  /** Above the slot bits, a magic number is the index plus sixteen times the start time. */
  lemma MagicBits(time: nat, index: nat)
    ensures Magic(time, index) == ((time * 16 + index) % 1024) * SLOTS
    ensures (time * 16 + index) % 1024 % 16 == index % 16
  {
    var x := (time % 64) * 16 + index % 1024;
    Scaled(x);
    Multiple(time * 16 + index, time / 64 + index / 1024, x);
    assert (time * 16 + index) % 16 == index % 16;
  }

  lemma MagicsDiffer(t: nat, i: nat, u: nat, j: nat)
    requires i % 16 != j % 16
    ensures Magic(t, i) != Magic(u, j)
  {
    MagicBits(t, i);
    MagicBits(u, j);
  }

  lemma MagicsMeet(i: nat, j: nat)
    requires i % 16 == j % 16 && i <= j
    ensures Magic((j - i) / 16, i) == Magic(0, j)
  {
    MagicBits((j - i) / 16, i);
    MagicBits(0, j);
    assert (j - i) / 16 * 16 + i == j;
  }

  /** Two threads can be told apart by their magic numbers, whenever they start, exactly when their
      indexes differ in the low four bits: always, for the indexes 1 to 15. */
  lemma MagicsNeverMeet(i: nat, j: nat)
    ensures (forall t: nat, u: nat :: Magic(t, i) != Magic(u, j)) <==> i % 16 != j % 16
  {
    if i % 16 != j % 16 {
      forall t: nat, u: nat ensures Magic(t, i) != Magic(u, j) { MagicsDiffer(t, i, u, j); }
    } else if i <= j {
      MagicsMeet(i, j);
    } else {
      MagicsMeet(j, i);
    }
  }

  /** So an id of one thread finds nothing in the list of another. */
  lemma WrongThread(t: nat, i: nat, slot: nat, u: nat, j: nat)
    requires 1 <= i <= 15 && 1 <= j <= 15 && i != j && slot < SLOTS
    ensures MagicOf(Magic(t, i) + slot) != Magic(u, j)
  {
    IdDecodes(t, i, slot);
    MagicsDiffer(t, i, u, j);
  }

  // ----- the table -----

  /** A connection, as far as the list looks at it: tcp says that getListenfd() is not -1. */
  datatype Conn = Conn(id: nat, tcp: bool, lastRefresh: int)

  datatype Slot = Slot(first: Option<Conn>, second: Entry)

  /** Each live slot has exactly one deadline entry and points at it, and there are no others. */
  ghost predicate Indexed(v: seq<Slot>, tl: seq<Entry>) {
    && Ordered(tl)
    && (forall e :: e in tl ==> 0 <= e.key < |v| && v[e.key].first.Some? && v[e.key].second == e)
    && (forall s :: 0 <= s < |v| && v[s].first.Some? ==> v[s].second.key == s && v[s].second in tl)
  }

  lemma IndexedInsert(v: seq<Slot>, tl: seq<Entry>, s: int, c: Conn, time: int)
    requires Indexed(v, tl) && 0 <= s < |v| && v[s].first.None?
    ensures Indexed(v[s := Slot(Some(c), Entry(time, s))], Insert(tl, Entry(time, s)))
  {
    InsertOrdered(tl, Entry(time, s));
    InsertMembers(tl, Entry(time, s));
  }

  lemma IndexedRemove(v: seq<Slot>, tl: seq<Entry>, s: int)
    requires Indexed(v, tl) && 0 <= s < |v| && v[s].first.Some?
    ensures Indexed(v[s := v[s].(first := None)], Without(tl, v[s].second))
  {
    RemoveOrdered(tl, v[s].second);
  }

  lemma IndexedMove(v: seq<Slot>, tl: seq<Entry>, s: int, c: Conn, time: int)
    requires Indexed(v, tl) && 0 <= s < |v| && v[s].first.Some?
    ensures Indexed(v[s := Slot(Some(c), Entry(time, s))], Insert(Without(tl, v[s].second), Entry(time, s)))
  {
    IndexedRemove(v, tl, s);
    var w := v[s := v[s].(first := None)];
    IndexedInsert(w, Without(tl, v[s].second), s, c, time);
    assert w[s := Slot(Some(c), Entry(time, s))] == v[s := Slot(Some(c), Entry(time, s))];
  }

  /** 1..total is partitioned into the free slots and those in use; a slot in use holds a connection
      or its id has been handed out and not yet added. */
  ghost predicate Booked(v: seq<Slot>, free: seq<int>, busy: set<int>) {
    && |v| > 0 && Sound(State(free, busy), |v| - 1)
    && (forall s :: s in free || s in busy <==> 1 <= s < |v|)
    && (forall s :: 0 <= s < |v| && v[s].first.Some? ==> s in busy)
  }

  lemma BookedGet(v: seq<Slot>, free: seq<int>, busy: set<int>)
    requires Booked(v, free, busy) && free != []
    ensures Booked(v, free[1..], busy + {free[0]}) && free[0] !in busy
  {
    assert free == [free[0]] + free[1..];
    assert free[0] in free;
  }

  lemma BookedDel(v: seq<Slot>, free: seq<int>, busy: set<int>, s: int)
    requires Booked(v, free, busy) && 1 <= s < |v| && v[s].first.Some?
    ensures Booked(v[s := v[s].(first := None)], free + [s], busy - {s})
  {
    assert s in busy && s !in free;
    forall x ensures x in free + [s] <==> x in free || x == s {}
  }

  /** The k-th id that operations on a list hand out. */
  function GivenId(magic: nat, s: State, ops: seq<Op>, k: nat): int
    requires Legal(s, ops) && k < |Given(s, ops)|
  {
    magic + Given(s, ops)[k]
  }

  /** The id of a connection that has been released is handed out again only after every slot that was free
      when it was released, in order: until then a response that comes late for it reaches nobody. */
  lemma IdReusedLast(v: seq<Slot>, free: seq<int>, busy: set<int>, magic: nat, slot: int, ops: seq<Op>, k: nat)
    requires Booked(v, free, busy) && slot in busy
    requires var all := [Op.Del(slot)] + ops; Legal(State(free, busy), all) && k < |Given(State(free, busy), all)|
    requires GivenId(magic, State(free, busy), [Op.Del(slot)] + ops, k) == magic + slot
    ensures k >= |free|
    ensures forall i :: 0 <= i < |free| ==>
              GivenId(magic, State(free, busy), [Op.Del(slot)] + ops, i) == magic + free[i] != magic + slot
  {
    ReusedLast(State(free, busy), slot, ops, k, |v| - 1);
    assert forall i :: 0 <= i < |free| ==> free[i] in free;
  }

  // ----- the expiry pass -----

  predicate Due(v: seq<Slot>, e: Entry, now: int) {
    e.time <= now && 0 <= e.key < |v| && v[e.key].first.Some? && v[e.key].first.value.tcp
  }

  function Kept(v: seq<Slot>, tl: seq<Entry>, now: int): seq<Entry> {
    if tl == [] then []
    else
      var last := tl[|tl| - 1];
      Kept(v, tl[..|tl| - 1], now) + if Due(v, last, now) then [] else [last]
  }

  function DueSlots(v: seq<Slot>, tl: seq<Entry>, now: int): seq<int> {
    if tl == [] then []
    else
      var last := tl[|tl| - 1];
      DueSlots(v, tl[..|tl| - 1], now) + if Due(v, last, now) then [last.key] else []
  }

  lemma {:induction false} DueSlotsOf(v: seq<Slot>, tl: seq<Entry>, now: int, s: int)
    ensures s in DueSlots(v, tl, now) <==> exists e :: e in tl && e.key == s && Due(v, e, now)
  {
    if tl != [] {
      var a, last := tl[..|tl| - 1], tl[|tl| - 1];
      assert tl == a + [last];
      DueSlotsOf(v, a, now, s);
    }
  }

  /** An expiry pass closes exactly the TCP connections whose deadline has come. */
  lemma DueExactly(v: seq<Slot>, tl: seq<Entry>, now: int, s: int)
    requires Indexed(v, tl) && 0 <= s < |v|
    ensures s in DueSlots(v, tl, now) <==> v[s].first.Some? && v[s].first.value.tcp && v[s].second.time <= now
  {
    DueSlotsOf(v, tl, now, s);
    if v[s].first.Some? && v[s].first.value.tcp && v[s].second.time <= now {
      assert v[s].second in tl && Due(v, v[s].second, now);
    }
  }

  lemma {:induction false} NoneDue(v: seq<Slot>, a: seq<Entry>, b: seq<Entry>, now: int)
    requires forall e :: e in b ==> !Due(v, e, now)
    ensures Kept(v, a + b, now) == Kept(v, a, now) + b && DueSlots(v, a + b, now) == DueSlots(v, a, now)
  {
    if b == [] {
      assert a + b == a;
    } else {
      var c, last := b[..|b| - 1], b[|b| - 1];
      assert b == c + [last] && a + b == (a + c) + [last];
      assert last in b;
      NoneDue(v, a, c, now);
    }
  }

  lemma OneMore(v: seq<Slot>, a: seq<Entry>, e: Entry, now: int)
    ensures Kept(v, a + [e], now) == Kept(v, a, now) + if Due(v, e, now) then [] else [e]
    ensures DueSlots(v, a + [e], now) == DueSlots(v, a, now) + if Due(v, e, now) then [e.key] else []
  {
    assert (a + [e])[..|a|] == a;
  }

  datatype Table = Table(v: seq<Slot>, tl: seq<Entry>, free: seq<int>)

  /** What a pass over the table was has come to, with the entries seen behind it and rest ahead. */
  ghost predicate Passed(was: Table, now: int, seen: seq<Entry>, rest: seq<Entry>, closed: seq<int>, t: Table) {
    && was.tl == seen + rest && t.tl == Kept(was.v, seen, now) + rest
    && closed == DueSlots(was.v, seen, now) && t.free == was.free + closed
    && |t.v| == |was.v|
    && (forall s :: 0 <= s < |t.v| ==> t.v[s] == if s in closed then was.v[s].(first := None) else was.v[s])
  }

  lemma PassOver(was: Table, now: int, seen: seq<Entry>, e: Entry, rest: seq<Entry>, closed: seq<int>, t: Table)
    requires Passed(was, now, seen, [e] + rest, closed, t) && Indexed(t.v, t.tl)
    ensures 0 <= e.key < |t.v| && t.v[e.key].first.Some? && t.v[e.key] == was.v[e.key]
    ensures !Due(was.v, e, now) ==> Passed(was, now, seen + [e], rest, closed, t)
  {
    var k := Kept(was.v, seen, now);
    assert t.tl[|k|] == e;
    assert e in t.tl;
    OneMore(was.v, seen, e, now);
    assert was.tl == (seen + [e]) + rest;
    if !Due(was.v, e, now) {
      assert t.tl == (k + [e]) + rest;
      assert closed + [] == closed;
    }
  }

  lemma CloseEntry(tl: seq<Entry>, k: seq<Entry>, e: Entry, rest: seq<Entry>)
    requires Ordered(tl) && tl == k + ([e] + rest)
    ensures Without(tl, e) == k + rest
  {
    assert tl == k + [e] + rest;
    RemoveSelf(k, e, rest);
  }

  lemma CloseSlot(was: seq<Slot>, v: seq<Slot>, closed: seq<int>, key: int)
    requires |v| == |was| && 0 <= key < |v|
    requires forall s :: 0 <= s < |v| ==> v[s] == if s in closed then was[s].(first := None) else was[s]
    ensures var w := v[key := v[key].(first := None)];
            forall s :: 0 <= s < |v| ==> w[s] == if s in closed + [key] then was[s].(first := None) else was[s]
  {
  }

  lemma PassClose(was: Table, now: int, seen: seq<Entry>, e: Entry, rest: seq<Entry>, closed: seq<int>, t: Table)
    requires Passed(was, now, seen, [e] + rest, closed, t) && Indexed(t.v, t.tl) && Due(was.v, e, now)
    requires 0 <= e.key < |t.v| && e in t.tl
    ensures Passed(was, now, seen + [e], rest, closed + [e.key],
                   Table(t.v[e.key := t.v[e.key].(first := None)], Without(t.tl, e), t.free + [e.key]))
  {
    var k := Kept(was.v, seen, now);
    CloseEntry(t.tl, k, e, rest);
    CloseSlot(was.v, t.v, closed, e.key);
    OneMore(was.v, seen, e, now);
    assert was.tl == (seen + [e]) + rest;
    assert k + [] == k;
    assert was.free + (closed + [e.key]) == t.free + [e.key];
  }

  lemma PassStarts(was: Table, now: int)
    ensures Passed(was, now, [], was.tl, [], was)
  {
    assert was.tl == [] + was.tl && was.free + [] == was.free;
  }

  /** Where the pass stands in the list it walks. */
  lemma PassAt(was: Table, now: int, seen: seq<Entry>, rest: seq<Entry>, closed: seq<int>, t: Table, it: nat)
    requires Passed(was, now, seen, rest, closed, t) && it == |Kept(was.v, seen, now)|
    ensures it < |t.tl| <==> rest != []
    ensures it < |t.tl| ==> t.tl[it] == rest[0]
  {
  }

  /** What a pass over a whole table comes to. */
  ghost predicate Cleared(was: Table, now: int, closed: seq<int>, t: Table) {
    && closed == DueSlots(was.v, was.tl, now) && t.tl == Kept(was.v, was.tl, now) && t.free == was.free + closed
    && |t.v| == |was.v|
    && (forall s :: 0 <= s < |t.v| ==> t.v[s] == if s in closed then was.v[s].(first := None) else was.v[s])
  }

  /** A pass may stop at the first entry in the future. */
  lemma NothingAhead(was: Table, now: int, seen: seq<Entry>, rest: seq<Entry>, closed: seq<int>, t: Table)
    requires Passed(was, now, seen, rest, closed, t) && Ordered(was.tl)
    requires rest != [] ==> rest[0].time > now
    ensures Cleared(was, now, closed, t)
  {
    forall e | e in rest ensures !Due(was.v, e, now) {
      var j :| 0 <= j < |rest| && rest[j] == e;
      assert was.tl[|seen|] == rest[0] && was.tl[|seen| + j] == e;
    }
    NoneDue(was.v, seen, rest, now);
  }

  // ----- the class -----

  class ConnectionList {
    const total: nat
    const magic: nat
    const vConn: array<Slot>
    var free: seq<int>
    var freeSize: nat
    var tl: seq<Entry>
    var lastTimeoutTime: int
    ghost var busy: set<int>

    ghost predicate Valid()
      reads this, vConn
    {
      && total < SLOTS && vConn.Length == total + 1 && magic % SLOTS == 0 && magic < UINT32
      && freeSize == |free|
      && Indexed(vConn[..], tl) && Booked(vConn[..], free, busy)
    }

    /** init(), for a list that has not been used. */
    constructor (size: nat, index: nat, now: nat)
      requires size < SLOTS
      ensures Valid() && total == size && magic == Magic(now, index) && lastTimeoutTime == now
      ensures busy == {} && tl == [] && fresh(vConn)
      ensures |free| == total && forall k :: 0 <= k < total ==> free[k] == k + 1
    {
      total, magic, lastTimeoutTime := size, Magic(now, index), now;
      vConn := new Slot[size + 1](_ => Slot(None, Entry(0, 0)));
      free, freeSize, tl, busy := [], 0, [], {};
      new;
      FillFree();
      assert forall s :: 0 <= s < vConn.Length ==> vConn[..][s].first.None?;
    }

    method FillFree()
      requires free == [] && freeSize == 0
      modifies this`free, this`freeSize
      ensures freeSize == |free| == total && forall k :: 0 <= k < total ==> free[k] == k + 1
      ensures forall s :: s in free <==> 1 <= s <= total
    {
      for i := 1 to total + 1
        invariant freeSize == |free| == i - 1 && forall k :: 0 <= k < i - 1 ==> free[k] == k + 1
      {
        free := free + [i];
        freeSize := freeSize + 1;
      }
      forall s | 1 <= s <= total ensures s in free { assert free[s - 1] == s; }
    }

    /** getUniqId(): the slot that has been free longest, under this list's magic number. */
    method GetUniqId() returns (id: nat)
      requires Valid() && free != []
      modifies this
      ensures Valid() && tl == old(tl) && lastTimeoutTime == old(lastTimeoutTime)
      ensures State(free, busy) == Do(old(State(free, busy)), Op.Get)
      ensures MagicOf(id) == magic && SlotOf(id) == old(free)[0] && id < UINT32
    {
      BookedGet(vConn[..], free, busy);
      var uid := free[0];
      assert uid > 0 && uid <= total;
      busy := busy + {uid};
      free := free[1..];
      freeSize := freeSize - 1;
      id := magic + uid;
    }

    /** get(): nothing for another list's ids. */
    method Get(id: nat) returns (c: Option<Conn>)
      requires Valid() && (MagicOf(id) == magic ==> SlotOf(id) <= total)
      ensures c == if MagicOf(id) == magic then vConn[SlotOf(id)].first else None
    {
      if MagicOf(id) != magic {
        return None;
      }
      c := vConn[SlotOf(id)].first;
    }

    method Add(c: Conn, timeOutStamp: int)
      requires Valid() && MagicOf(c.id) == magic && SlotOf(c.id) in busy && vConn[SlotOf(c.id)].first.None?
      modifies this, vConn
      ensures Valid() && State(free, busy) == old(State(free, busy)) && lastTimeoutTime == old(lastTimeoutTime)
      ensures var e := Entry(timeOutStamp, SlotOf(c.id));
              tl == Insert(old(tl), e) && vConn[..] == old(vConn[..])[e.key := Slot(Some(c), e)]
    {
      var uid := SlotOf(c.id);
      assert uid > 0 && uid <= total;
      IndexedInsert(vConn[..], tl, uid, c, timeOutStamp);
      tl := Insert(tl, Entry(timeOutStamp, uid));
      vConn[uid] := Slot(Some(c), Entry(timeOutStamp, uid));
    }

    /** The slot holds a connection that was last refreshed no later than its deadline. */
    ghost predicate Punctual(s: int)
      reads this, vConn
      requires Valid() && 0 <= s < vConn.Length
    {
      vConn[s].first.Some? && vConn[s].first.value.lastRefresh <= vConn[s].second.time
    }

    /** refresh(): moves the deadline, unless it was refreshed to this time or a later one before. Either
        way the connection is not due before timeOutStamp. */
    method Refresh(id: nat, timeOutStamp: int)
      requires Valid() && MagicOf(id) == magic && SlotOf(id) <= total && vConn[SlotOf(id)].first.Some?
      modifies this, vConn
      ensures Valid() && State(free, busy) == old(State(free, busy)) && lastTimeoutTime == old(lastTimeoutTime)
      ensures forall s :: 0 <= s <= total && s != SlotOf(id) ==> vConn[s] == old(vConn[s])
      ensures var slot, was := vConn[SlotOf(id)], old(vConn[SlotOf(id)]);
              slot == if timeOutStamp <= was.first.value.lastRefresh then was
                      else Slot(Some(was.first.value.(lastRefresh := timeOutStamp)), Entry(timeOutStamp, SlotOf(id)))
      ensures old(Punctual(SlotOf(id))) ==> Punctual(SlotOf(id)) && vConn[SlotOf(id)].second.time >= timeOutStamp
    {
      var uid := SlotOf(id);
      var slot := vConn[uid];
      if timeOutStamp - slot.first.value.lastRefresh < 1 {
        return;
      }
      var c := slot.first.value.(lastRefresh := timeOutStamp);
      IndexedMove(vConn[..], tl, uid, c, timeOutStamp);
      tl := Without(tl, slot.second);
      tl := Insert(tl, Entry(timeOutStamp, uid));
      vConn[uid] := Slot(Some(c), Entry(timeOutStamp, uid));
    }

    method Del(id: nat)
      requires Valid() && MagicOf(id) == magic && 0 < SlotOf(id) <= total && vConn[SlotOf(id)].first.Some?
      modifies this, vConn
      ensures Valid() && State(free, busy) == Do(old(State(free, busy)), Op.Del(SlotOf(id)))
      ensures vConn[..] == old(vConn[..][SlotOf(id) := vConn[SlotOf(id)].(first := None)])
      ensures tl == Without(old(tl), old(vConn[SlotOf(id)]).second) && lastTimeoutTime == old(lastTimeoutTime)
    {
      DelSlot(SlotOf(id));
    }

    /** _del(). */
    method DelSlot(uid: nat)
      requires Valid() && 0 < uid <= total && vConn[uid].first.Some?
      modifies this, vConn
      ensures Valid() && State(free, busy) == Do(old(State(free, busy)), Op.Del(uid))
      ensures vConn[..] == old(vConn[..][uid := vConn[uid].(first := None)])
      ensures tl == Without(old(tl), old(vConn[uid]).second) && lastTimeoutTime == old(lastTimeoutTime)
    {
      IndexedRemove(vConn[..], tl, uid);
      BookedDel(vConn[..], free, busy, uid);
      tl := Without(tl, vConn[uid].second);
      vConn[uid] := vConn[uid].(first := None);
      free := free + [uid];
      freeSize := freeSize + 1;
      busy := busy - {uid};
    }

    /** size(): how many slots are in use. */
    method Size() returns (n: nat)
      requires Valid()
      ensures n == |busy|
    {
      n := total - freeSize;
    }

    ghost function Here(): Table
      reads this, vConn
    {
      Table(vConn[..], tl, free)
    }

    /** One turn of the loop of checkTimeout(), at an entry that is not in the future. */
    method Visit(it: nat, curTime: int, ghost was: Table, ghost seen: seq<Entry>, ghost rest: seq<Entry>, closed: seq<int>)
      returns (next: nat, closed': seq<int>)
      requires Valid() && it < |tl| && rest != [] && tl[it] == rest[0] && rest[0].time <= curTime
      requires Passed(was, curTime, seen, rest, closed, Here()) && it == |Kept(was.v, seen, curTime)|
      modifies this, vConn
      ensures Valid() && lastTimeoutTime == old(lastTimeoutTime)
      ensures Passed(was, curTime, seen + [rest[0]], rest[1..], closed', Here())
      ensures next == |Kept(was.v, seen + [rest[0]], curTime)|
    {
      var e := tl[it];
      assert rest == [e] + rest[1..];
      PassOver(was, curTime, seen, e, rest[1..], closed, Here());
      OneMore(was.v, seen, e, curTime);
      if !vConn[e.key].first.value.tcp {
        return it + 1, closed;
      }
      PassClose(was, curTime, seen, e, rest[1..], closed, Here());
      assert e.key in busy;
      DelSlot(e.key);
      return it, closed + [e.key];
    }

    /** checkTimeout(), without the pass over empty connections: at most once a second, closes the
        TCP connections that are due, in the order of their deadlines. */
    method CheckTimeout(curTime: int) returns (closed: seq<int>)
      requires Valid()
      modifies this, vConn
      ensures Valid()
      ensures curTime - old(lastTimeoutTime) < 1 ==>
                closed == [] && tl == old(tl) && free == old(free) && vConn[..] == old(vConn[..])
      ensures curTime - old(lastTimeoutTime) >= 1 ==>
                && lastTimeoutTime == curTime
                && closed == DueSlots(old(vConn[..]), old(tl), curTime)
                && tl == Kept(old(vConn[..]), old(tl), curTime)
                && free == old(free) + closed
                && forall s :: 0 <= s <= total ==> vConn[s].first == if s in closed then None else old(vConn[s]).first
    {
      closed := [];
      if curTime - lastTimeoutTime < 1 {
        return;
      }
      lastTimeoutTime := curTime;
      closed := Expire(curTime);
    }

    method Expire(curTime: int) returns (closed: seq<int>)
      requires Valid()
      modifies this, vConn
      ensures Valid() && lastTimeoutTime == old(lastTimeoutTime)
      ensures Cleared(old(Here()), curTime, closed, Here())
    {
      closed := [];
      var it := 0;
      ghost var was, seen, rest := Here(), [], tl;
      PassStarts(was, curTime);
      while it < |tl|
        invariant Valid() && lastTimeoutTime == old(lastTimeoutTime)
        invariant Passed(was, curTime, seen, rest, closed, Here()) && it == |Kept(was.v, seen, curTime)|
        decreases |rest|
      {
        PassAt(was, curTime, seen, rest, closed, Here(), it);
        if tl[it].time > curTime {
          break;
        }
        it, closed := Visit(it, curTime, was, seen, rest, closed);
        seen, rest := seen + [rest[0]], rest[1..];
      }
      PassAt(was, curTime, seen, rest, closed, Here(), it);
      NothingAhead(was, curTime, seen, rest, closed, Here());
    }
  }
}
