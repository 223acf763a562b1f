/** The allocator of client thread numbers: a first-in first-out free list threaded through an array. */
module SeqManagers {
  import opened Basics

  const MAX_UNSIGN_SHORT := 0xffff

  datatype SeqInfo = SeqInfo(free: bool, next: int)

  /** The queue names exactly the slots marked free, each once. */
  ghost predicate Marked(p: seq<SeqInfo>, queue: seq<int>) {
    && Distinct(queue)
    && (forall k :: 0 <= k < |queue| ==> 0 <= queue[k] < |p|)
    && (forall i :: 0 <= i < |p| ==> (p[i].free <==> i in queue))
  }

  ghost predicate Linked(p: seq<SeqInfo>, queue: seq<int>)
    requires forall k :: 0 <= k < |queue| ==> 0 <= queue[k] < |p|
  {
    forall k {:trigger queue[k]} :: 0 <= k < |queue| ==> p[queue[k]].next == NextOf(queue, k)
  }

  /** The chain of next links that starts at free visits exactly the slots marked free, each once, in
      queue order, and ends at tail, whose next is the end marker. */
  ghost predicate Chain(p: seq<SeqInfo>, free: int, tail: int, queue: seq<int>) {
    && Marked(p, queue) && Linked(p, queue)
    && free == (if queue == [] then MAX_UNSIGN_SHORT else queue[0])
    && tail == (if queue == [] then MAX_UNSIGN_SHORT else queue[|queue| - 1])
  }

  function NextOf(queue: seq<int>, k: nat): int
    requires k < |queue|
  {
    if k + 1 < |queue| then queue[k + 1] else MAX_UNSIGN_SHORT
  }

  function UpTo(n: nat): (r: seq<int>)
    ensures |r| == n && forall k :: 0 <= k < n ==> r[k] == k
  {
    seq(n, k => k)
  }

  lemma ChainStarts(p: seq<SeqInfo>)
    requires 0 < |p| < MAX_UNSIGN_SHORT
    requires forall i :: 0 <= i < |p| ==> p[i] == SeqInfo(true, if i + 1 < |p| then i + 1 else MAX_UNSIGN_SHORT)
    ensures Chain(p, 0, |p| - 1, UpTo(|p|)) && InUse(|p|, UpTo(|p|)) == {}
  {
    var q := UpTo(|p|);
    forall i | 0 <= i < |p| ensures i in q { assert q[i] == i; }
  }

  lemma MarkedShrinks(p: seq<SeqInfo>, queue: seq<int>)
    requires Marked(p, queue) && queue != []
    ensures queue[0] !in queue[1..] && Marked(p[queue[0] := p[queue[0]].(free := false)], queue[1..])
  {
    assert queue == [queue[0]] + queue[1..];
  }

  lemma LinkedShrinks(p: seq<SeqInfo>, queue: seq<int>)
    requires Marked(p, queue) && Linked(p, queue) && queue != []
    ensures var rest, r := queue[1..], p[queue[0] := p[queue[0]].(free := false)];
            (forall k :: 0 <= k < |rest| ==> 0 <= rest[k] < |r|) && Linked(r, rest)
  {
    var rest := queue[1..];
    assert forall k :: 0 <= k < |rest| ==> rest[k] == queue[k + 1] && NextOf(rest, k) == NextOf(queue, k + 1);
  }

  lemma ChainShrinks(p: seq<SeqInfo>, free: int, tail: int, queue: seq<int>)
    requires |p| < MAX_UNSIGN_SHORT && Chain(p, free, tail, queue) && queue != []
    ensures 0 <= free < |p| && p[free].free && (free == tail <==> |queue| == 1)
    ensures free == tail ==> p[free].next == MAX_UNSIGN_SHORT
    ensures Chain(p[free := p[free].(free := false)], p[free].next, if free == tail then MAX_UNSIGN_SHORT else tail, queue[1..])
  {
    MarkedShrinks(p, queue);
    LinkedShrinks(p, queue);
    assert p[queue[0]].next == NextOf(queue, 0);
  }

  /** The slots after id has been hung behind tail and marked free. */
  function Appended(p: seq<SeqInfo>, tail: int, id: int): (r: seq<SeqInfo>)
    requires 0 <= id < |p| && (tail == MAX_UNSIGN_SHORT || 0 <= tail < |p|)
    ensures |r| == |p|
  {
    (if tail == MAX_UNSIGN_SHORT then p else p[tail := p[tail].(next := id)])[id := SeqInfo(true, MAX_UNSIGN_SHORT)]
  }

  lemma MarkedGrows(p: seq<SeqInfo>, tail: int, queue: seq<int>, id: int)
    requires Marked(p, queue) && 0 <= id < |p| && id !in queue && (tail == MAX_UNSIGN_SHORT || 0 <= tail < |p|)
    ensures Marked(Appended(p, tail, id), queue + [id])
  {
    var longer, r := queue + [id], Appended(p, tail, id);
    assert longer[|queue|] == id;
    forall i | 0 <= i < |p| ensures r[i].free <==> i in longer {
      assert i in longer <==> i in queue || i == id;
    }
  }

  lemma LinkedGrows(p: seq<SeqInfo>, tail: int, queue: seq<int>, id: int)
    requires Marked(p, queue) && Linked(p, queue) && 0 <= id < |p| < MAX_UNSIGN_SHORT && id !in queue
    requires tail == if queue == [] then MAX_UNSIGN_SHORT else queue[|queue| - 1]
    ensures var longer := queue + [id];
            && (forall k :: 0 <= k < |longer| ==> 0 <= longer[k] < |p|)
            && Linked(Appended(p, tail, id), longer)
  {
    var longer, r := queue + [id], Appended(p, tail, id);
    forall k {:trigger longer[k]} | 0 <= k < |longer| ensures r[longer[k]].next == NextOf(longer, k) {
      if k < |queue| {
        assert longer[k] == queue[k] != id;
      }
    }
  }

  lemma ChainGrows(p: seq<SeqInfo>, free: int, tail: int, queue: seq<int>, id: int)
    requires |p| < MAX_UNSIGN_SHORT && Chain(p, free, tail, queue) && 0 <= id < |p| && id !in queue
    ensures tail == MAX_UNSIGN_SHORT <==> queue == []
    ensures queue != [] ==> 0 <= tail < |p| && tail != id && !p[id].free
    ensures Chain(Appended(p, tail, id), if queue == [] then id else free, id, queue + [id])
  {
    MarkedGrows(p, tail, queue, id);
    LinkedGrows(p, tail, queue, id);
  }

  /** The ids in use. */
  function InUse(num: nat, queue: seq<int>): set<int> {
    set i | 0 <= i < num && i !in queue
  }

  lemma InUseAfter(num: nat, queue: seq<int>, id: int)
    requires Distinct(queue) && 0 <= id < num
    ensures InUse(num, queue + [id]) == InUse(num, queue) - {id}
    ensures queue != [] && queue[0] == id ==> InUse(num, queue[1..]) == InUse(num, queue) + {id}
  {
    forall i ensures i in queue + [id] <==> i in queue || i == id {}
    if queue != [] && queue[0] == id {
      forall i | i != id ensures i in queue[1..] <==> i in queue {
        assert queue == [id] + queue[1..];
      }
    }
  }

  class SeqManager {
    const num: nat
    const p: array<SeqInfo>
    var free: int
    var freeTail: int
    ghost var queue: seq<int>

    ghost predicate Valid()
      reads this, p
    {
      0 < num < MAX_UNSIGN_SHORT && p.Length == num && Chain(p[..], free, freeTail, queue)
    }

    /** The allocator as a queue of free ids and a set of ids in use. */
    ghost function Value(): State
      reads this
    {
      State(queue, InUse(num, queue))
    }

    constructor (iNum: nat)
      requires 0 < iNum < MAX_UNSIGN_SHORT
      ensures Valid() && num == iNum && Value() == State(UpTo(iNum), {}) && fresh(p)
    {
      num := iNum;
      p := new SeqInfo[iNum](_ => SeqInfo(true, 0));
      free := 0;
      freeTail := iNum - 1;
      queue := UpTo(iNum);
      new;
      FillSlots();
    }

    /** The loop of the constructor, and the end marker after it. */
    method FillSlots()
      requires 0 < p.Length < MAX_UNSIGN_SHORT
      modifies p
      ensures Chain(p[..], 0, p.Length - 1, UpTo(p.Length)) && InUse(p.Length, UpTo(p.Length)) == {}
    {
      for i := 0 to p.Length
        invariant forall j :: 0 <= j < i ==> p[j] == SeqInfo(true, j + 1)
      {
        p[i] := SeqInfo(true, i + 1);
      }
      p[p.Length - 1] := p[p.Length - 1].(next := MAX_UNSIGN_SHORT);
      ChainStarts(p[..]);
    }

    /** get(): the slot that has been free longest. */
    method Get() returns (buf: int)
      requires Valid() && Allowed(Value(), Op.Get)
      modifies this, p
      ensures Valid() && Value() == Do(old(Value()), Op.Get) && buf == old(queue)[0]
    {
      ChainShrinks(p[..], free, freeTail, queue);
      InUseAfter(num, queue, free);
      assert free != MAX_UNSIGN_SHORT;
      assert p[free].free;
      buf := free;
      if free == freeTail {
        assert p[buf].next == MAX_UNSIGN_SHORT;
        freeTail := MAX_UNSIGN_SHORT;
      }
      free := p[buf].next;
      p[buf] := p[buf].(free := false);
      queue := queue[1..];
    }

    /** del(): back to the end of the queue. */
    method Del(iSeq: int)
      requires Valid() && Allowed(Value(), Op.Del(iSeq))
      modifies this, p
      ensures Valid() && Value() == Do(old(Value()), Op.Del(iSeq))
    {
      ChainGrows(p[..], free, freeTail, queue, iSeq);
      InUseAfter(num, queue, iSeq);
      assert iSeq < num;
      assert !p[iSeq].free;
      Hang(iSeq);
      freeTail := iSeq;
      queue := queue + [iSeq];
    }

    /** The links of del(). */
    method Hang(iSeq: int)
      requires 0 <= iSeq < p.Length && (freeTail == MAX_UNSIGN_SHORT || (0 <= freeTail < p.Length && freeTail != iSeq))
      modifies this`free, p
      ensures free == if freeTail == MAX_UNSIGN_SHORT then iSeq else old(free)
      ensures p[..] == Appended(old(p[..]), freeTail, iSeq)
    {
      p[iSeq] := p[iSeq].(next := MAX_UNSIGN_SHORT);
      if MAX_UNSIGN_SHORT == freeTail {
        free := iSeq;
      } else {
        p[freeTail] := p[freeTail].(next := iSeq);
      }
      p[iSeq] := p[iSeq].(free := true);
    }
  }

  // ----- runs -----

  datatype Op = Get | Del(id: int)

  /** The free ids in the order they will be handed out, and the ids in use. */
  datatype State = State(queue: seq<int>, outstanding: set<int>)

  predicate Allowed(s: State, op: Op) {
    match op
    case Get => s.queue != []
    case Del(id) => id in s.outstanding
  }

  function Do(s: State, op: Op): State
    requires Allowed(s, op)
  {
    match op
    case Get => State(s.queue[1..], s.outstanding + {s.queue[0]})
    case Del(id) => State(s.queue + [id], s.outstanding - {id})
  }

  predicate Legal(s: State, ops: seq<Op>)
    decreases |ops|
  {
    ops == [] || (Allowed(s, ops[0]) && Legal(Do(s, ops[0]), ops[1..]))
  }

  function After(s: State, ops: seq<Op>): State
    requires Legal(s, ops)
    decreases |ops|
  {
    if ops == [] then s else After(Do(s, ops[0]), ops[1..])
  }

  /** The ids handed out by the get operations of a run, in order. */
  function Given(s: State, ops: seq<Op>): seq<int>
    requires Legal(s, ops)
    decreases |ops|
  {
    if ops == [] then []
    else (if ops[0] == Get then [s.queue[0]] else []) + Given(Do(s, ops[0]), ops[1..])
  }

  /** The ids returned by the del operations of a run, in order. */
  function Returned(ops: seq<Op>): seq<int> {
    if ops == [] then [] else (if ops[0].Del? then [ops[0].id] else []) + Returned(ops[1..])
  }

  ghost predicate Sound(s: State, num: nat) {
    && Distinct(s.queue)
    && (forall i :: i in s.queue ==> i !in s.outstanding)
    && |s.queue| + |s.outstanding| == num
  }

  /** Free plus outstanding is always num, no id is in both, and none is free twice. */
  lemma {:induction false} RunSound(s: State, ops: seq<Op>, num: nat)
    requires Sound(s, num) && Legal(s, ops)
    ensures Sound(After(s, ops), num)
    decreases |ops|
  {
    if ops != [] {
      var t := Do(s, ops[0]);
      match ops[0] {
        case Get =>
          assert s.queue == [s.queue[0]] + t.queue;
          assert s.queue[0] in s.queue;
        case Del(id) =>
      }
      assert Sound(t, num);
      RunSound(t, ops[1..], num);
    }
  }

  /** In particular after every run of a new allocator. */
  lemma EveryRunSound(num: nat, ops: seq<Op>)
    requires Legal(State(UpTo(num), {}), ops)
    ensures Sound(After(State(UpTo(num), {}), ops), num)
  {
    RunSound(State(UpTo(num), {}), ops, num);
  }

  /** First in, first out: what a run hands out, followed by what is free after it, is what was free
      before it, followed by what it returned. */
  lemma {:induction false} FirstInFirstOut(s: State, ops: seq<Op>)
    requires Legal(s, ops)
    ensures Given(s, ops) + After(s, ops).queue == s.queue + Returned(ops)
    decreases |ops|
  {
    if ops != [] {
      var t := Do(s, ops[0]);
      FirstInFirstOut(t, ops[1..]);
      var g, a, r := Given(t, ops[1..]), After(t, ops[1..]).queue, Returned(ops[1..]);
      match ops[0] {
        case Get => InFront([s.queue[0]], g, a, t.queue, r);
        case Del(id) => assert [] + g == g && (s.queue + [id]) + r == s.queue + ([id] + r);
      }
    }
  }

  lemma InFront(x: seq<int>, g: seq<int>, a: seq<int>, q: seq<int>, r: seq<int>)
    requires g + a == q + r
    ensures (x + g) + a == (x + q) + r
  {
    assert (x + g) + a == x + (g + a) && x + (q + r) == (x + q) + r;
  }

  /** A released id is handed out again only after every id that was free at its release. */
  lemma ReusedLast(s: State, id: int, ops: seq<Op>, k: nat, num: nat)
    requires Sound(s, num) && id in s.outstanding && Legal(s, [Del(id)] + ops)
    requires k < |Given(s, [Del(id)] + ops)| && Given(s, [Del(id)] + ops)[k] == id
    ensures k >= |s.queue|
    ensures forall i :: 0 <= i < |s.queue| ==> Given(s, [Del(id)] + ops)[i] == s.queue[i]
  {
    var all := [Del(id)] + ops;
    FirstInFirstOut(s, all);
    var g, a := Given(s, all), After(s, all).queue;
    assert g[k] == (g + a)[k] == (s.queue + Returned(all))[k];
    assert id !in s.queue;
    forall i | 0 <= i < |s.queue| ensures g[i] == s.queue[i] {
      assert g[i] == (g + a)[i] == (s.queue + Returned(all))[i];
    }
  }
}
