/** The coroutine scheduler in the source's own form: nodes linked into five circular lists that
    start and end at a head, a table of all nodes by id, and methods that relink nodes in place.
    The ghost field v is the scheduler on values; every method is proved to change it as the
    function of the same name in CoroutineModel says. */
module CoroutineScheduling {
  import opened Basics
  import M = CoroutineModel
  import opened CoroutineModel

  class CoroutineInfo {
    var prev: CoroutineInfo?
    var next: CoroutineInfo?
    var uid: nat
    var status: Status

    constructor ()
      ensures prev == null && next == null && uid == 0 && status == Free
    {
      prev, next, uid, status := null, null, 0, Free;
    }

    /** head and ns, in that order, form one doubly linked circle without repetition. */
    static ghost predicate Ring(head: CoroutineInfo, ns: seq<CoroutineInfo>)
      reads head, ns
    {
      && head !in ns
      && (forall i, j :: 0 <= i < j < |ns| ==> ns[i] != ns[j])
      && (if ns == [] then head.next == head && head.prev == head
          else
            && head.next == ns[0] && ns[0].prev == head
            && head.prev == ns[|ns| - 1] && ns[|ns| - 1].next == head
            && (forall i {:trigger ns[i].next} :: 0 <= i < |ns| - 1 ==> ns[i].next == ns[i + 1])
            && (forall i {:trigger ns[i].prev} :: 1 <= i < |ns| ==> ns[i].prev == ns[i - 1]))
    }

    static method HeadInit(head: CoroutineInfo)
      modifies head`prev, head`next
      ensures Ring(head, [])
    {
      head.next := head;
      head.prev := head;
    }

    static method HeadEmpty(head: CoroutineInfo, ghost ns: seq<CoroutineInfo>) returns (empty: bool)
      requires Ring(head, ns)
      ensures empty <==> ns == []
    {
      empty := head.next == head;
    }

    static method AddTail(coro: CoroutineInfo, head: CoroutineInfo, ghost ns: seq<CoroutineInfo>)
      requires Ring(head, ns) && coro !in ns && coro != head
      modifies coro`prev, coro`next, head`prev, head.prev`next
      ensures Ring(head, ns + [coro])
    {
      var prev, next := head.prev, head;
      next.prev := coro;
      coro.next := next;
      coro.prev := prev;
      prev.next := coro;
    }

    static method Del(coro: CoroutineInfo, ghost head: CoroutineInfo, ghost ns: seq<CoroutineInfo>, ghost k: nat)
      requires Ring(head, ns) && k < |ns| && ns[k] == coro
      modifies coro`prev, coro`next, coro.prev`next, coro.next`prev
      ensures Ring(head, ns[..k] + ns[k + 1..])
      ensures coro.prev == null && coro.next == null
    {
      var prev, next := coro.prev, coro.next;
      next.prev := prev;
      prev.next := next;
      coro.next := null;
      coro.prev := null;
      ghost var ns' := ns[..k] + ns[k + 1..];
      assert forall i :: 0 <= i < |ns'| ==> ns'[i] == if i < k then ns[i] else ns[i + 1];
      assert ns' != [] ==> ns'[0] == (if k == 0 then ns[1] else ns[0])
                           && ns'[|ns'| - 1] == (if k == |ns| - 1 then ns[|ns| - 2] else ns[|ns| - 1]);
    }
  }

  /** Ids are given out in order, and each has a status. */
  ghost predicate Numbered(v: Sched) {
    v.uniqId == v.currentSize && forall i: nat :: i in v.status <==> 1 <= i <= v.currentSize
  }

  class CoroutineScheduler {
    var terminal: bool
    const poolSize: nat
    var currentSize: nat
    var usedSize: nat
    var uniqId: nat
    const mainCoro: CoroutineInfo
    var currentCoro: CoroutineInfo?
    const allCoro: array<CoroutineInfo?>
    const active: CoroutineInfo
    const avail: CoroutineInfo
    const inactive: CoroutineInfo
    const timeout: CoroutineInfo
    const free: CoroutineInfo
    var activeCoroQueue: seq<nat>
    var needActiveCoroId: seq<nat>
    var timeoutCoroId: seq<Alarm>

    ghost var v: Sched
    ghost var rings: Lists<CoroutineInfo>
    ghost var nodes: set<CoroutineInfo>

    function Head(s: Status): CoroutineInfo {
      match s
      case Free => free
      case Active => active
      case Avail => avail
      case Inactive => inactive
      case Timeout => timeout
    }

    ghost predicate IsHead(n: CoroutineInfo?) {
      n == free || n == active || n == avail || n == inactive || n == timeout
    }

    ghost predicate HeadsApart()
      reads this
    {
      && free != active && free != avail && free != inactive && free != timeout
      && active != avail && active != inactive && active != timeout
      && avail != inactive && avail != timeout && inactive != timeout
      && !IsHead(mainCoro)
      && {free, active, avail, inactive, timeout, mainCoro} <= nodes
    }

    static ghost predicate Tabled(table: array<CoroutineInfo?>, size: nat, nodes: set<CoroutineInfo>, status: map<nat, Status>)
      reads table, nodes
    {
      && size < table.Length
      && forall i {:trigger table[i]} :: 1 <= i <= size ==>
            && table[i] != null && table[i] in nodes && table[i].uid == i
            && i in status && table[i].status == status[i]
    }

    /** Every id from 1 to currentSize has its own node in the table, with the recorded status. */
    ghost predicate Table()
      reads this, allCoro, nodes
    {
      && allCoro.Length == poolSize + 1
      && currentSize <= poolSize < UINT32
      && Tabled(allCoro, currentSize, nodes, v.status)
      && (forall i {:trigger allCoro[i]} :: 1 <= i <= currentSize ==> !IsHead(allCoro[i]) && allCoro[i] != mainCoro)
    }

    ghost predicate Fields()
      reads this
    {
      Fields0() && v.uniqId == uniqId
    }

    ghost predicate Fields0()
      reads this
    {
      && v.terminal == terminal && v.poolSize == poolSize && v.currentSize == currentSize
      && v.usedSize == usedSize
      && v.need == needActiveCoroId && v.queue == activeCoroQueue && v.alarms == timeoutCoroId
    }

    ghost predicate Known(coro: CoroutineInfo)
      reads this, allCoro, coro
    {
      1 <= coro.uid <= currentSize && coro.uid < allCoro.Length && allCoro[coro.uid] == coro
    }

    /** ns are known nodes with status s, and l their ids. */
    static ghost predicate Holds(ns: seq<CoroutineInfo>, l: seq<nat>, s: Status,
                                 table: array<CoroutineInfo?>, size: nat, nodes: set<CoroutineInfo>)
      reads ns, table
    {
      && |ns| == |l|
      && (forall n :: n in ns ==> n in nodes)
      && forall k {:trigger ns[k]} :: 0 <= k < |ns| ==>
            && ns[k].status == s && ns[k].uid == l[k]
            && 1 <= ns[k].uid <= size && ns[k].uid < table.Length && table[ns[k].uid] == ns[k]
    }

    /** rings[s] holds the nodes of exactly the ids that list s has, in order. */
    ghost predicate Members(s: Status)
      reads this, allCoro, nodes
    {
      && (forall n :: n in At(rings, s) ==> n in nodes)
      && Holds(At(rings, s), At(v.lists, s), s, allCoro, currentSize, nodes)
    }

    static lemma HoldsCut(ns: seq<CoroutineInfo>, l: seq<nat>, s: Status,
                          table: array<CoroutineInfo?>, size: nat, nodes: set<CoroutineInfo>, k: nat)
      requires Holds(ns, l, s, table, size, nodes) && k < |ns|
      ensures Holds(ns[..k] + ns[k + 1..], l[..k] + l[k + 1..], s, table, size, nodes)
    {
    }

    static lemma HoldsPush(ns: seq<CoroutineInfo>, l: seq<nat>, s: Status,
                           table: array<CoroutineInfo?>, size: nat, nodes: set<CoroutineInfo>, n: CoroutineInfo)
      requires Holds(ns, l, s, table, size, nodes)
      requires Holds([n], [n.uid], s, table, size, nodes)
      ensures Holds(ns + [n], l + [n.uid], s, table, size, nodes)
    {
    }

    /** ns is the circle of list s. */
    ghost predicate Round(s: Status, ns: seq<CoroutineInfo>, nodes: set<CoroutineInfo>)
      reads nodes
    {
      && Head(s) in nodes
      && (forall n :: n in ns ==> n in nodes)
      && CoroutineInfo.Ring(Head(s), ns)
    }

    ghost predicate Circle(s: Status)
      reads this, nodes
    {
      Round(s, At(rings, s), nodes)
    }

    ghost predicate Circles()
      reads this, nodes, allCoro
    {
      && HeadsApart() && Table() && Fields()
      && (forall s :: Members(s))
      && (forall s :: Circle(s))
    }

    ghost predicate Linked()
      reads this, nodes, allCoro
    {
      Circles() && Listed(v.lists, v.status)
    }

    ghost predicate Valid()
      reads this, nodes, allCoro
    {
      Linked() && Inv(v)
    }

    /** List t keeps clear of the head and the nodes of list s. */
    ghost predicate Disjoint(s: Status, t: Status)
      reads this
    {
      && Head(t) != Head(s) && Head(t) !in At(rings, s)
      && forall k {:trigger At(rings, t)[k]} :: 0 <= k < |At(rings, t)| ==>
           At(rings, t)[k] !in At(rings, s) && At(rings, t)[k] != Head(s)
    }

    lemma Apart(s: Status, t: Status)
      requires HeadsApart() && Table() && Members(s) && Members(t) && s != t
      ensures Disjoint(s, t)
    {
      forall k | 0 <= k < |At(rings, t)|
        ensures At(rings, t)[k] !in At(rings, s) && At(rings, t)[k] != Head(s)
      {
        assert At(rings, t)[k].status == t && Known(At(rings, t)[k]);
      }
    }

    lemma AllApart(s: Status)
      requires Circles()
      ensures forall t :: t != s ==> Disjoint(s, t)
    {
      forall t | t != s ensures Disjoint(s, t) { Apart(s, t); }
    }

    /** A circle none of whose links were written is still that circle. */
    twostate lemma KeepsCircle(t: Status)
      requires old(Circle(t))
      requires At(rings, t) == old(At(rings, t)) && nodes == old(nodes)
      requires Head(t).prev == old(Head(t).prev) && Head(t).next == old(Head(t).next)
      requires forall k {:trigger At(rings, t)[k]} :: 0 <= k < |At(rings, t)| ==>
                 && At(rings, t)[k].prev == old(At(rings, t)[k].prev)
                 && At(rings, t)[k].next == old(At(rings, t)[k].next)
      ensures Circle(t)
    {
      var ns := At(rings, t);
      assert forall k :: 0 <= k < |ns| ==> ns[k].prev == old(ns[k].prev) && ns[k].next == old(ns[k].next);
    }

    /** Writing links changes neither the table nor who is on which list. */
    twostate lemma KeepsMembers()
      requires old(Table()) && old(forall t :: Members(t))
      requires rings == old(rings) && v.lists == old(v.lists) && v.status == old(v.status)
      requires nodes == old(nodes) && currentSize == old(currentSize)
      requires allCoro[..] == old(allCoro[..])
      requires forall n: CoroutineInfo :: n in nodes ==> n.uid == old(n.uid) && n.status == old(n.status)
      ensures Table() && forall t :: Members(t)
    {
      assert forall i :: 0 <= i < allCoro.Length ==> allCoro[i] == allCoro[..][i];
      assert forall i :: 0 <= i < allCoro.Length ==> old(allCoro[i]) == old(allCoro[..])[i];
      forall i | 1 <= i <= currentSize
        ensures allCoro[i] != null && allCoro[i] in nodes && allCoro[i].uid == i
        ensures i in v.status && allCoro[i].status == v.status[i]
      {
        assert allCoro[i] == old(allCoro[i]);
      }
      forall t ensures Members(t) { assert old(Members(t)); }
    }

    /** Unlinking a coroutine opens no circle: its own closes up and the others are untouched. */
    method Detach(coro: CoroutineInfo, ghost k: nat)
      requires Circles() && k < |At(rings, coro.status)| && At(rings, coro.status)[k] == coro
      modifies nodes`prev, nodes`next
      ensures Table() && forall t :: Members(t)
      ensures forall t :: t != coro.status ==> Circle(t)
      ensures CoroutineInfo.Ring(Head(coro.status), At(rings, coro.status)[..k] + At(rings, coro.status)[k + 1..])
    {
      ghost var from := coro.status;
      assert Circle(from);
      AllApart(from);
      CoroutineInfo.Del(coro, Head(from), At(rings, from), k);
      KeepsMembers();
      forall t | t != from ensures Circle(t) {
        assert Disjoint(from, t);
        KeepsCircle(t);
      }
    }

    /** Linking a loose coroutine at the tail of a list closes that circle around it. */
    method Attach(coro: CoroutineInfo, s: Status)
      requires Circles() && coro in nodes && !IsHead(coro) && Loose(coro)
      modifies nodes`prev, nodes`next
      ensures Table() && forall t :: Members(t)
      ensures forall t :: t != s ==> Circle(t)
      ensures CoroutineInfo.Ring(Head(s), At(rings, s) + [coro])
    {
      assert Circle(s);
      AllApart(s);
      CoroutineInfo.AddTail(coro, Head(s), At(rings, s));
      KeepsMembers();
      forall t | t != s ensures Circle(t) {
        assert Disjoint(s, t);
        KeepsCircle(t);
      }
    }

    /** Where a coroutine is linked: at one place in the list its status names, and nowhere else. */
    lemma Position(coro: CoroutineInfo) returns (k: nat)
      requires Linked() && Known(coro) && coro.uid in v.status
      ensures k < |At(rings, coro.status)| && At(rings, coro.status)[k] == coro
      ensures k < |At(v.lists, coro.status)|
      ensures Without(At(v.lists, coro.status), coro.uid)
              == At(v.lists, coro.status)[..k] + At(v.lists, coro.status)[k + 1..]
      ensures forall t :: t != coro.status ==> coro !in At(rings, t)
    {
      var from := coro.status;
      assert Members(from) && allCoro[coro.uid] == coro;
      CountIn(At(v.lists, from), coro.uid);
      WithoutAt(At(v.lists, from), coro.uid);
      k := IndexOf(At(v.lists, from), coro.uid);
      assert At(rings, from)[k] == coro;
      forall t | t != from ensures coro !in At(rings, t) { assert Members(t); }
    }

    ghost predicate Loose(coro: CoroutineInfo)
      reads this
    {
      forall t :: coro !in At(rings, t)
    }

    ghost predicate Woven(r: Lists<CoroutineInfo>, l: Lists<nat>, t: Status, size: nat, nodes: set<CoroutineInfo>)
      reads allCoro, nodes
    {
      && Round(t, At(r, t), nodes)
      && Holds(At(r, t), At(l, t), t, allCoro, size, nodes)
    }

    lemma Rewoven(s: Status, ns: seq<CoroutineInfo>, l: seq<nat>, r: Lists<CoroutineInfo>, ls: Lists<nat>)
      requires HeadsApart() && (forall t :: Members(t)) && (forall t :: t != s ==> Circle(t))
      requires Holds(ns, l, s, allCoro, currentSize, nodes) && CoroutineInfo.Ring(Head(s), ns)
      requires r == rings[s := ns] && ls == v.lists[s := l]
      ensures forall t :: Woven(r, ls, t, currentSize, nodes)
    {
      forall t ensures Woven(r, ls, t, currentSize, nodes) {
        assert Members(t);
        if t != s { assert Circle(t); }
      }
    }

    /** The history fields follow the links of one list. */
    ghost method Record(s: Status, ns: seq<CoroutineInfo>, l: seq<nat>)
      requires HeadsApart() && Table() && Fields() && (forall t :: Members(t)) && (forall t :: t != s ==> Circle(t))
      requires Holds(ns, l, s, allCoro, currentSize, nodes) && CoroutineInfo.Ring(Head(s), ns)
      modifies this`v, this`rings
      ensures Circles()
      ensures v == old(v).(lists := old(v).lists[s := l]) && rings == old(rings)[s := ns]
    {
      var r, ls := rings[s := ns], v.lists[s := l];
      Rewoven(s, ns, l, r, ls);
      Reweave(r, ls);
    }

    ghost method Reweave(r: Lists<CoroutineInfo>, ls: Lists<nat>)
      requires HeadsApart() && Table() && Fields()
      requires forall t :: Woven(r, ls, t, currentSize, nodes)
      modifies this`v, this`rings
      ensures Circles()
      ensures v == old(v).(lists := ls) && rings == r
    {
      v := v.(lists := ls);
      rings := r;
      forall t ensures Members(t) && Circle(t) { assert Woven(r, ls, t, currentSize, nodes); }
    }

    /** CoroutineDel: off its list; the status still names the list it was on. */
    method Unlink(coro: CoroutineInfo)
      requires Linked() && Known(coro) && coro.uid in v.status
      modifies this`v, this`rings, nodes`prev, nodes`next
      ensures Circles()
      ensures Known(coro) && coro.uid == old(coro.uid) && Loose(coro)
      ensures v == old(v.(lists := v.lists[coro.status := Without(At(v.lists, coro.status), coro.uid)]))
    {
      ghost var k := Position(coro);
      UnlinkAt(coro, k);
    }

    method UnlinkAt(coro: CoroutineInfo, ghost k: nat)
      requires Circles() && k < |At(rings, coro.status)| && At(rings, coro.status)[k] == coro
      requires k < |At(v.lists, coro.status)|
      requires forall t :: t != coro.status ==> coro !in At(rings, t)
      modifies this`v, this`rings, nodes`prev, nodes`next
      ensures Circles()
      ensures Known(coro) && coro.uid == old(coro.uid) && Loose(coro)
      ensures var l := old(At(v.lists, coro.status));
              v == old(v).(lists := old(v.lists)[old(coro.status) := l[..k] + l[k + 1..]])
    {
      ghost var from, ns, l, was := coro.status, At(rings, coro.status), At(v.lists, coro.status), rings;
      ghost var ns' := ns[..k] + ns[k + 1..];
      assert coro !in ns' && Known(coro) by { assert Circle(from) && Members(from); }
      Detach(coro, k);
      assert Members(from);
      HoldsCut(ns, l, from, allCoro, currentSize, nodes, k);
      Record(from, ns', l[..k] + l[k + 1..]);
      LooseNow(coro, from, was, ns');
    }

    lemma LooseNow(coro: CoroutineInfo, from: Status, was: Lists<CoroutineInfo>, ns: seq<CoroutineInfo>)
      requires rings == was[from := ns] && coro !in ns
      requires forall t :: t != from ==> coro !in At(was, t)
      ensures Loose(coro)
    {
      forall t ensures coro !in At(rings, t) { assert t != from ==> At(rings, t) == At(was, t); }
    }

    method SetStatus(coro: CoroutineInfo, s: Status)
      requires Circles() && Known(coro) && coro.uid in v.status && Loose(coro)
      modifies this`v, nodes`status
      ensures Circles()
      ensures Known(coro) && coro.uid == old(coro.uid) && coro.status == s && Loose(coro)
      ensures v == old(v.(status := v.status[coro.uid := s]))
    {
      assert allCoro[coro.uid] == coro;
      coro.status := s;
      v := v.(status := v.status[coro.uid := s]);
      forall i | 1 <= i <= currentSize ensures allCoro[i] != null && allCoro[i].status == v.status[i] {
        assert allCoro[i] == old(allCoro[i]) && allCoro[i].uid == i;
      }
      forall t ensures Members(t) { assert old(Members(t)); }
      forall t ensures Circle(t) { assert old(Circle(t)); KeepsCircle(t); }
    }

    /** CoroutineAddTail on the list of status s. */
    method LinkTail(coro: CoroutineInfo, s: Status)
      requires Circles() && Known(coro) && coro.status == s && Loose(coro)
      modifies this`v, this`rings, nodes`prev, nodes`next
      ensures Circles()
      ensures v == old(v.(lists := v.lists[s := At(v.lists, s) + [coro.uid]]))
    {
      assert allCoro[coro.uid] == coro;
      Attach(coro, s);
      assert Members(s);
      HoldsPush(At(rings, s), At(v.lists, s), s, allCoro, currentSize, nodes, coro);
      Record(s, At(rings, s) + [coro], At(v.lists, s) + [coro.uid]);
    }

    /** Unlink, set the status, link at the tail: what every moveTo method does. */
    method Relink(coro: CoroutineInfo, s: Status)
      requires Linked() && Known(coro) && coro.uid in v.status && coro.status != s
      modifies this`v, this`rings, nodes
      ensures Linked()
      ensures v == Move(old(v), old(coro.uid), s)
    {
      MoveSplits(v, coro.uid, s);
      Unlink(coro);
      SetStatus(coro, s);
      LinkTail(coro, s);
    }

    /** The constructor, with the table already of the size init() asks for; init(0) is refused and
        leaves the default limit. */
    constructor (iPoolSize: nat)
      requires iPoolSize < UINT32
      ensures Valid() && v == Empty(if iPoolSize == 0 then 1000 else iPoolSize)
      ensures fresh(nodes) && fresh(allCoro)
    {
      var pool := if iPoolSize == 0 then 1000 else iPoolSize;
      poolSize := pool;
      terminal, currentSize, usedSize, uniqId := false, 0, 0, 0;
      activeCoroQueue, needActiveCoroId, timeoutCoroId := [], [], [];
      mainCoro := new CoroutineInfo();
      currentCoro := null;
      allCoro := new CoroutineInfo?[pool + 1](_ => null);
      active := new CoroutineInfo();
      avail := new CoroutineInfo();
      inactive := new CoroutineInfo();
      timeout := new CoroutineInfo();
      free := new CoroutineInfo();
      v := Empty(pool);
      rings := map[];
      new;
      nodes := {free, active, avail, inactive, timeout, mainCoro};
      assert fresh(nodes);
      Open();
    }

    /** The rest of the constructor. */
    method Open()
      requires Fields() && v == Empty(poolSize) && rings == map[]
      requires allCoro.Length == poolSize + 1 && poolSize < UINT32
      requires HeadsApart()
      modifies nodes
      ensures Valid()
    {
      InitHeads();
      Opened();
    }

    /** init(): the first coroutines, at most 100. */
    method Init(iPoolSize: nat)
      requires Valid() && v == Empty(if iPoolSize == 0 then 1000 else iPoolSize)
      modifies this, nodes, allCoro
      ensures Valid() && v == Start(iPoolSize) && fresh(nodes - old(nodes))
    {
      if iPoolSize != 0 {
        Fill(if iPoolSize <= 100 then iPoolSize else 100);
      }
    }

    lemma Opened()
      requires HeadsApart() && Fields() && v == Empty(poolSize) && rings == map[]
      requires allCoro.Length == poolSize + 1 && poolSize < UINT32
      requires forall t :: Circle(t)
      ensures Valid()
    {
      EmptySound(poolSize);
    }

    method InitHeads()
      requires HeadsApart() && rings == map[]
      modifies nodes`prev, nodes`next
      ensures forall t :: Circle(t)
    {
      CoroutineInfo.HeadInit(active);
      CoroutineInfo.HeadInit(avail);
      CoroutineInfo.HeadInit(inactive);
      CoroutineInfo.HeadInit(timeout);
      CoroutineInfo.HeadInit(free);
    }

    /** switchCoro(&_mainCoro): the current coroutine gives the processor back. */
    method SwitchToMain()
      requires Linked()
      modifies this`currentCoro
      ensures Linked() && currentCoro == mainCoro
    {
      currentCoro := mainCoro;
      KeepsLinks();
    }

    /** The loop of init(). */
    method Fill(n: nat)
      requires Valid() && v == Empty(poolSize) && n <= poolSize
      modifies this, nodes, allCoro
      ensures Valid() && v == AddFree(Empty(poolSize), n) && currentCoro == mainCoro
      ensures fresh(nodes - old(nodes))
    {
      AddFreeKeepsInv(v, n);
      AddCoroutines(n);
      SwitchToMain();
    }

    // ----- moves -----

    method MoveToActive(coro: CoroutineInfo)
      requires Linked() && Known(coro) && coro.uid in v.status
      modifies this`v, this`rings, nodes
      ensures Linked()
      ensures v == M.MoveToActive(old(v), old(coro.uid))
    {
      assert allCoro[coro.uid] == coro;
      if coro.status == Inactive {
        Relink(coro, Active);
      } else if coro.status == Timeout {
        Relink(coro, Active);
      }
    }

    method MoveToAvail(coro: CoroutineInfo)
      requires Linked() && Known(coro) && coro.uid in v.status
      modifies this`v, this`rings, nodes
      ensures Linked()
      ensures v == M.MoveToAvail(old(v), old(coro.uid))
    {
      assert allCoro[coro.uid] == coro;
      if coro.status == Inactive {
        Relink(coro, Avail);
      }
    }

    method MoveToInactive(coro: CoroutineInfo)
      requires Linked() && Known(coro) && coro.uid in v.status
      modifies this`v, this`rings, nodes
      ensures Linked()
      ensures v == M.MoveToInactive(old(v), old(coro.uid))
    {
      assert allCoro[coro.uid] == coro;
      if coro.status == Active {
        Relink(coro, Inactive);
      } else if coro.status == Avail {
        Relink(coro, Inactive);
      }
    }

    method MoveToTimeout(coro: CoroutineInfo)
      requires Linked() && Known(coro) && coro.uid in v.status
      modifies this`v, this`rings, nodes
      ensures Linked()
      ensures v == M.MoveToTimeout(old(v), old(coro.uid))
    {
      assert allCoro[coro.uid] == coro;
      if coro.status == Active {
        Relink(coro, Timeout);
      } else if coro.status == Avail {
        Relink(coro, Timeout);
      }
    }

    method MoveToFreeList(coro: CoroutineInfo)
      requires Linked() && Known(coro) && coro.uid in v.status
      modifies this`v, this`rings, nodes
      ensures Linked()
      ensures v == M.MoveToFree(old(v), old(coro.uid))
    {
      assert allCoro[coro.uid] == coro;
      if coro.status == Active || coro.status == Avail || coro.status == Inactive || coro.status == Timeout {
        Relink(coro, Free);
      }
    }

    // ----- creating coroutines -----

    method GenerateId() returns (i: nat)
      requires uniqId < poolSize < UINT32
      modifies this`uniqId
      ensures i == uniqId == old(uniqId) + 1
    {
      uniqId := (uniqId + 1) % UINT32;
      i := uniqId;
      assert i != 0;
      assert i <= poolSize;
    }

    /** The table entry of a new coroutine, not yet on any list. */
    method Register() returns (coro: CoroutineInfo)
      requires Circles() && v.uniqId == v.currentSize < v.poolSize
      modifies this`uniqId, this`currentSize, this`nodes, this`v, allCoro
      ensures Circles() && Known(coro) && coro.status == Free && Loose(coro)
      ensures v == old(v).(uniqId := old(v).uniqId + 1, currentSize := old(v).currentSize + 1,
                           status := old(v).status[coro.uid := Free])
      ensures coro.uid == old(v).uniqId + 1
      ensures fresh(coro) && nodes == old(nodes) + {coro}
      ensures forall i :: 1 <= i <= old(currentSize) ==> allCoro[i] == old(allCoro[i])
    {
      coro := NewNode();
      Enter(coro);
    }

    method NewNode() returns (coro: CoroutineInfo)
      requires Circles() && v.uniqId == v.currentSize < v.poolSize
      modifies this`uniqId
      ensures HeadsApart() && Table() && Fields0() && (forall t :: Members(t)) && (forall t :: Circle(t))
      ensures uniqId == v.uniqId + 1
      ensures fresh(coro) && coro.uid == uniqId && coro.status == Free
    {
      coro := new CoroutineInfo();
      var id := GenerateId();
      coro.uid := id;
      coro.status := Free;
      KeepsMembers();
      forall t ensures Circle(t) { KeepsCircle(t); }
    }

    method Enter(coro: CoroutineInfo)
      requires HeadsApart() && Table() && (forall t :: Members(t)) && (forall t :: Circle(t))
      requires Fields0() && v.uniqId == v.currentSize < v.poolSize && uniqId == v.uniqId + 1
      requires coro !in nodes && coro.uid == uniqId && coro.status == Free
      modifies this`currentSize, this`nodes, this`v, allCoro
      ensures Circles() && Known(coro) && Loose(coro)
      ensures v == old(v).(uniqId := coro.uid, currentSize := coro.uid, status := old(v).status[coro.uid := Free])
      ensures nodes == old(nodes) + {coro}
      ensures forall i :: 1 <= i <= old(currentSize) ==> allCoro[i] == old(allCoro[i])
    {
      allCoro[coro.uid] := coro;
      currentSize := currentSize + 1;
      nodes := nodes + {coro};
      v := v.(uniqId := coro.uid, currentSize := coro.uid, status := v.status[coro.uid := Free]);
      StillWoven(coro);
      StillTabled(coro);
    }

    twostate predicate Same(n: CoroutineInfo)
      reads n
    {
      n.uid == old(n.uid) && n.status == old(n.status) && n.prev == old(n.prev) && n.next == old(n.next)
    }

    twostate lemma StillTabled(new coro: CoroutineInfo)
      requires old(Table()) && old(HeadsApart())
      requires old(currentSize) < poolSize && currentSize == old(currentSize) + 1 && nodes == old(nodes) + {coro}
      requires coro !in old(nodes) && coro.uid == currentSize && coro.status == Free
      requires v.status == old(v.status)[currentSize := Free]
      requires forall n {:trigger n in old(nodes)} :: n in old(nodes) ==> Same(n)
      requires forall i :: 1 <= i <= old(currentSize) ==> allCoro[i] == old(allCoro[i])
      requires allCoro[currentSize] == coro
      ensures Table()
    {
      forall i | 1 <= i <= currentSize
        ensures allCoro[i] != null && allCoro[i] in nodes && allCoro[i].uid == i && i in v.status
        ensures allCoro[i].status == v.status[i] && !IsHead(allCoro[i]) && allCoro[i] != mainCoro
      {
        assert i < currentSize ==> allCoro[i] == old(allCoro[i]);
      }
    }

    /** A node that joins the table disturbs no circle. */
    twostate lemma StillWoven(new coro: CoroutineInfo)
      requires old(forall t :: Members(t)) && old(forall t :: Circle(t))
      requires rings == old(rings) && v.lists == old(v.lists)
      requires currentSize == old(currentSize) + 1 < allCoro.Length && nodes == old(nodes) + {coro}
      requires coro !in old(nodes)
      requires forall n {:trigger n in old(nodes)} :: n in old(nodes) ==> Same(n)
      requires forall i :: 1 <= i <= old(currentSize) ==> allCoro[i] == old(allCoro[i])
      ensures Loose(coro) && forall t :: Members(t) && Circle(t)
    {
      forall t ensures Members(t) && Circle(t) && coro !in At(rings, t) {
        assert old(Members(t)) && old(Circle(t));
        var ns := At(rings, t);
        assert ns == old(At(rings, t));
        assert Same(Head(t));
        forall k | 0 <= k < |ns| ensures Same(ns[k]) { assert ns[k] in ns && ns[k] in old(nodes); }
      }
    }

    method NewCoroutine()
      requires Linked() && Numbered(v) && currentSize < poolSize
      modifies this`uniqId, this`currentSize, this`nodes, this`v, this`rings, nodes, allCoro
      ensures Linked() && Numbered(v) && v == AddOne(old(v))
      ensures fresh(nodes - old(nodes)) && old(nodes) <= nodes
      ensures forall i :: 1 <= i <= old(currentSize) ==> allCoro[i] == old(allCoro[i])
    {
      AddOneListed(v.lists, v.status, v.uniqId + 1);
      var coro := Register();
      LinkTail(coro, Free);
    }

    /** Adds n coroutines. */
    method AddCoroutines(n: nat)
      requires Linked() && Numbered(v) && currentSize + n <= poolSize
      modifies this`uniqId, this`currentSize, this`nodes, this`v, this`rings, nodes, allCoro
      ensures Linked() && v == AddFree(old(v), n)
      ensures currentSize >= old(currentSize)
      ensures fresh(nodes - old(nodes)) && old(nodes) <= nodes
      ensures forall i :: 1 <= i <= old(currentSize) ==> allCoro[i] == old(allCoro[i])
    {
      for i := 0 to n
        invariant Linked() && Numbered(v) && v == AddFree(old(v), i) && currentSize == old(currentSize) + i
        invariant fresh(nodes - old(nodes)) && old(nodes) <= nodes
        invariant forall k :: 1 <= k <= old(currentSize) ==> allCoro[k] == old(allCoro[k])
      {
        NewCoroutine();
      }
    }

    method IncreaseCoroPoolSize() returns (ret: int)
      requires Linked() && Numbered(v)
      modifies this`uniqId, this`currentSize, this`nodes, this`v, this`rings, nodes, allCoro
      ensures Linked() && v == Grow(old(v))
      ensures ret == 0 <==> old(currentSize) < poolSize
      ensures currentSize >= old(currentSize)
      ensures fresh(nodes - old(nodes)) && old(nodes) <= nodes
      ensures forall i :: 1 <= i <= old(currentSize) ==> allCoro[i] == old(allCoro[i])
    {
      var inc := if poolSize - currentSize > 100 then 100 else poolSize - currentSize;
      if inc <= 0 {
        return -1;
      }
      AddCoroutines(inc);
      ret := 0;
    }

    /** createCoroutine; registering the callback is not part of this model. */
    method CreateCoroutine() returns (id: nat)
      requires Valid()
      modifies this`uniqId, this`currentSize, this`usedSize, this`nodes, this`v, this`rings, nodes, allCoro
      ensures Valid() && v == Create(old(v)).0 && id == Create(old(v)).1
      ensures currentSize >= old(currentSize)
      ensures fresh(nodes - old(nodes)) && old(nodes) <= nodes
      ensures forall i :: 1 <= i <= old(currentSize) ==> allCoro[i] == old(allCoro[i])
    {
      ToppedSound(v);
      CreateSound(v);
      var ok := TopUp();
      if !ok {
        return 0;
      }
      id := TakeFree();
    }

    /** Sees to it that there is a free coroutine, if there can be one. */
    method TopUp() returns (ok: bool)
      requires Linked() && Numbered(v) && v.usedSize + |At(v.lists, Free)| == v.currentSize
      requires At(Topped(v).lists, Free) == [] <==> v.usedSize == v.poolSize
      modifies this`uniqId, this`currentSize, this`nodes, this`v, this`rings, nodes, allCoro
      ensures Linked() && v == Topped(old(v)) && (ok <==> At(v.lists, Free) != [])
      ensures currentSize >= old(currentSize)
      ensures fresh(nodes - old(nodes)) && old(nodes) <= nodes
      ensures forall i :: 1 <= i <= old(currentSize) ==> allCoro[i] == old(allCoro[i])
    {
      var empty := ListEmpty(Free);
      ok := true;
      if usedSize >= currentSize || empty {
        var ret := IncreaseCoroPoolSize();
        ok := ret == 0;
      }
    }

    /** free._next is the coroutine that has been free longest. */
    lemma FirstOf(s: Status)
      requires Linked() && At(v.lists, s) != []
      ensures Head(s).next != null && Head(s).next in nodes && Known(Head(s).next)
      ensures Head(s).next.uid == At(v.lists, s)[0] && Head(s).next.uid in v.status
      ensures v.status[At(v.lists, s)[0]] == s && Head(s).next.status == s
    {
      assert Members(s) && Circle(s);
      assert At(rings, s)[0] == Head(s).next;
      CountIn(At(v.lists, s), At(v.lists, s)[0]);
    }

    method SetUsed(n: nat)
      requires Circles()
      modifies this`usedSize, this`v
      ensures Circles() && v == old(v).(usedSize := n)
    {
      usedSize := n;
      v := v.(usedSize := n);
      KeepsLinks();
    }

    /** Writing no node and no link-related field leaves every list as it was. */
    twostate lemma KeepsLinks()
      requires old(Circles()) && Fields()
      requires rings == old(rings) && v.lists == old(v.lists) && v.status == old(v.status)
      requires nodes == old(nodes) && currentSize == old(currentSize) && allCoro[..] == old(allCoro[..])
      requires forall n {:trigger n in nodes} :: n in nodes ==> Same(n)
      ensures Circles()
    {
      KeepsMembers();
      forall t ensures Circle(t) {
        assert old(Circle(t));
        var ns := At(rings, t);
        assert Same(Head(t));
        forall k | 0 <= k < |ns| ensures Same(ns[k]) { assert ns[k] in ns && ns[k] in nodes; }
        KeepsCircle(t);
      }
    }

    method TakeFree() returns (id: nat)
      requires Linked() && At(v.lists, Free) != []
      modifies this`usedSize, this`v, this`rings, nodes
      ensures At(old(v).lists, Free) != [] && id == At(old(v).lists, Free)[0] && id in old(v).status
      ensures Linked() && v == Take(old(v), id)
    {
      FirstOf(Free);
      var coro := free.next;
      id := coro.uid;
      SetUsed(usedSize + 1);
      Relink(coro, Avail);
    }

    // ----- the running coroutine, and other threads -----

    /** put(): any thread; the notification that follows is not part of this model. */
    method Put(id: nat)
      requires Valid() && 1 <= id <= currentSize
      modifies this`activeCoroQueue, this`v
      ensures Valid() && v == M.Put(old(v), id)
    {
      if !terminal {
        activeCoroQueue := activeCoroQueue + [id];
        v := v.(queue := v.queue + [id]);
        KeepsLinks();
      }
    }

    method Terminate()
      requires Valid()
      modifies this`terminal, this`v
      ensures Valid() && v == M.Terminate(old(v))
    {
      terminal := true;
      v := v.(terminal := true);
      KeepsLinks();
    }

    method PutBySelf(id: nat)
      requires Linked() && 1 <= id <= currentSize
      modifies this`needActiveCoroId, this`v
      ensures Linked() && v == if old(terminal) then old(v) else old(v).(need := old(v).need + [id])
    {
      if !terminal {
        needActiveCoroId := needActiveCoroId + [id];
        v := v.(need := v.need + [id]);
        KeepsLinks();
      }
    }

    /** The running coroutine, or one that may be. */
    ghost predicate Running(coro: CoroutineInfo?)
      reads this, allCoro, coro
    {
      coro != null && Known(coro) && Runnable(v, coro.uid)
    }

    method Yield(flag: bool)
      requires Valid() && Running(currentCoro)
      modifies this, nodes
      ensures Valid() && nodes == old(nodes)
      ensures v == M.Yield(old(v), old(currentCoro.uid), flag)
    {
      YieldKeepsInv(v, currentCoro.uid, flag);
      YieldLinked(flag);
    }

    method YieldLinked(flag: bool)
      requires Linked() && Running(currentCoro)
      modifies this`needActiveCoroId, this`currentCoro, this`v, this`rings, nodes
      ensures Linked() && v == M.Yield(old(v), old(currentCoro.uid), flag)
    {
      ghost var id := currentCoro.uid;
      if flag {
        PutBySelf(currentCoro.uid);
      }
      MoveToInactive(currentCoro);
      RecordYield(id, flag);
      SwitchToMain();
    }

    ghost method RecordYield(id: nat, flag: bool)
      requires Linked()
      modifies this`v
      ensures Linked() && v == old(v).(yielded := if flag then old(v).yielded + {id} else old(v).yielded - {id})
    {
      v := v.(yielded := if flag then v.yielded + {id} else v.yielded - {id});
      KeepsLinks();
    }

    method SetAlarm(due: int, id: nat)
      requires Linked()
      modifies this`timeoutCoroId, this`v
      ensures Linked() && v == old(v).(alarms := InsertAlarm(old(v).alarms, Alarm(due, id)),
                                       asleepUntil := old(v).asleepUntil[id := due])
    {
      timeoutCoroId := InsertAlarm(timeoutCoroId, Alarm(due, id));
      v := v.(alarms := InsertAlarm(v.alarms, Alarm(due, id)), asleepUntil := v.asleepUntil[id := due]);
      KeepsLinks();
    }

    /** sleep(): at is the time on the clock when it is called. */
    method Sleep(at: int, iSleepTime: int)
      requires Valid() && Running(currentCoro)
      modifies this, nodes
      ensures Valid() && nodes == old(nodes)
      ensures v == M.Sleep(old(v), old(currentCoro.uid), at, iSleepTime)
    {
      SleepKeepsInv(v, currentCoro.uid, at, iSleepTime);
      SleepLinked(at, iSleepTime);
    }

    method SleepLinked(at: int, iSleepTime: int)
      requires Linked() && Running(currentCoro)
      modifies this`timeoutCoroId, this`currentCoro, this`v, this`rings, nodes
      ensures Linked() && v == M.Sleep(old(v), old(currentCoro.uid), at, iSleepTime)
    {
      SetAlarm(at + if iSleepTime >= 0 then iSleepTime else -iSleepTime, currentCoro.uid);
      MoveToTimeout(currentCoro);
      SwitchToMain();
    }

    /** The end of corotineProc: the coroutine's function has returned. */
    method Finish()
      requires Valid() && Running(currentCoro)
      modifies this, nodes
      ensures Valid() && nodes == old(nodes)
      ensures old(v).usedSize > 0 && old(currentCoro.uid) in old(v).status
      ensures v == M.Finish(old(v), old(currentCoro.uid))
    {
      FinishKeepsInv(v, currentCoro.uid);
      FinishLinked();
    }

    method FinishLinked()
      requires Linked() && Running(currentCoro) && usedSize > 0
      modifies this`usedSize, this`currentCoro, this`v, this`rings, nodes
      ensures Linked() && old(currentCoro.uid) in old(v).status && old(v).usedSize > 0
      ensures v == M.Finish(old(v), old(currentCoro.uid))
    {
      SetUsed(usedSize - 1);
      MoveToFreeList(currentCoro);
      SwitchToMain();
    }

    // ----- waking up -----

    lemma InTable(id: nat)
      requires Linked() && id in v.status && Numbered(v)
      ensures id < allCoro.Length && allCoro[id] != null && Known(allCoro[id]) && allCoro[id].uid == id
    {
      assert 1 <= id <= currentSize;
      assert allCoro[id] != null;
    }

    method WakeOneAvail(id: nat)
      requires Linked() && Numbered(v) && id in v.status
      modifies this`v, this`rings, nodes
      ensures Linked() && v == M.MoveToAvail(old(v), id)
    {
      InTable(id);
      var coro := allCoro[id];
      assert coro != null;
      MoveToAvail(coro);
    }

    method WakeOneActive(id: nat)
      requires Linked() && Numbered(v) && id in v.status
      modifies this`v, this`rings, nodes
      ensures Linked() && v == M.MoveToActive(old(v), id)
    {
      InTable(id);
      var coro := allCoro[id];
      assert coro != null;
      MoveToActive(coro);
    }

    method WakeUpBySelf()
      requires Valid()
      modifies this`needActiveCoroId, this`v, this`rings, nodes
      ensures Valid() && v == M.WakeBySelf(old(v))
    {
      WakeBySelfSound(v);
      if !terminal {
        WakeNeeding();
        ClearNeed();
      }
    }

    method WakeNeeding()
      requires Linked() && Numbered(v) && forall i :: i in v.need ==> i in v.status
      modifies this`v, this`rings, nodes
      ensures Linked() && v == WakeAllAvail(old(v), old(v).need)
    {
      var it := 0;
      while it < |needActiveCoroId|
        invariant it <= |needActiveCoroId| && Linked() && Numbered(v)
        invariant forall i :: i in needActiveCoroId ==> i in v.status
        invariant WakeAllAvail(v, needActiveCoroId[it..]) == WakeAllAvail(old(v), needActiveCoroId)
      {
        var id := needActiveCoroId[it];
        assert needActiveCoroId[it..][1..] == needActiveCoroId[it + 1..];
        WakeOneAvail(id);
        it := it + 1;
      }
    }

    method ClearNeed()
      requires Linked()
      modifies this`needActiveCoroId, this`v
      ensures Linked() && v == old(v).(need := [])
    {
      needActiveCoroId := [];
      v := v.(need := []);
      KeepsLinks();
    }

    method WakeUp()
      requires Valid()
      modifies this`activeCoroQueue, this`v, this`rings, nodes
      ensures Valid() && v == M.Wake(old(v))
    {
      WakeSound(v);
      if !terminal {
        var coroIds := SwapQueue();
        WakeQueued(coroIds);
      }
    }

    method WakeQueued(coroIds: seq<nat>)
      requires Linked() && Numbered(v) && forall i :: i in coroIds ==> i in v.status
      modifies this`v, this`rings, nodes
      ensures Linked() && v == WakeAllActive(old(v), coroIds)
    {
      var it := 0;
      while it < |coroIds|
        invariant it <= |coroIds| && Linked() && Numbered(v)
        invariant forall i :: i in coroIds ==> i in v.status
        invariant WakeAllActive(v, coroIds[it..]) == WakeAllActive(old(v), coroIds)
      {
        var id := coroIds[it];
        assert coroIds[it..][1..] == coroIds[it + 1..];
        WakeOneActive(id);
        it := it + 1;
      }
    }

    method SwapQueue() returns (ids: seq<nat>)
      requires Linked()
      modifies this`activeCoroQueue, this`v
      ensures Linked() && v == old(v).(queue := []) && ids == old(v).queue
    {
      ids := activeCoroQueue;
      activeCoroQueue := [];
      v := v.(queue := []);
      KeepsLinks();
    }

    method WakeUpByTimeout(iNow: int)
      requires Valid()
      modifies this`timeoutCoroId, this`v, this`rings, nodes
      ensures Valid() && v == M.WakeByTimeout(old(v), iNow)
    {
      if !terminal {
        NoSleeperOverdue(v, iNow);
        WakeDue(iNow);
      }
    }

    method WakeDue(iNow: int)
      requires Linked() && Numbered(v) && forall a :: a in v.alarms ==> a.id in v.status
      modifies this`timeoutCoroId, this`v, this`rings, nodes
      ensures Linked() && v == DrainAlarms(old(v), iNow)
    {
      while |timeoutCoroId| > 0 && timeoutCoroId[0].at <= iNow
        invariant Linked() && Numbered(v) && forall a :: a in v.alarms ==> a.id in v.status
        invariant DrainAlarms(v, iNow) == DrainAlarms(old(v), iNow)
        decreases |timeoutCoroId|
      {
        assert timeoutCoroId[0] in v.alarms;
        WakeFirstDue();
      }
    }

    method WakeFirstDue()
      requires Linked() && Numbered(v) && v.alarms != [] && v.alarms[0].id in v.status
      modifies this`timeoutCoroId, this`v, this`rings, nodes
      ensures Linked() && v == DrainOne(old(v))
    {
      WakeOneActive(timeoutCoroId[0].id);
      EraseFirstAlarm();
    }

    method EraseFirstAlarm()
      requires Linked() && v.alarms != []
      modifies this`timeoutCoroId, this`v
      ensures Linked() && v == old(v).(alarms := old(v).alarms[1..])
    {
      timeoutCoroId := timeoutCoroId[1..];
      v := v.(alarms := v.alarms[1..]);
      KeepsLinks();
    }

    /** The three wake-ups, with terminate() called by another thread after the first or the second. */
    method WakeUpAll(iNow: int, stop: nat)
      requires Valid()
      modifies this`terminal, this`timeoutCoroId, this`needActiveCoroId, this`activeCoroQueue, this`v, this`rings, nodes
      ensures Valid() && v == M.WakeUp(old(v), iNow, stop)
    {
      WakeUpByTimeout(iNow);
      if stop == 1 {
        Terminate();
      }
      WakeUpBySelf();
      if stop == 2 {
        Terminate();
      }
      WakeUp();
    }

    // ----- running coroutines -----

    method DoAct(a: Act)
      requires Valid()
      modifies this, nodes, allCoro
      ensures Valid() && v == M.DoAct(old(v), a) && currentCoro == old(currentCoro)
      ensures fresh(nodes - old(nodes)) && old(nodes) <= nodes && currentSize >= old(currentSize)
      ensures forall i :: 1 <= i <= old(currentSize) ==> allCoro[i] == old(allCoro[i])
    {
      match a {
        case Creates =>
          var _ := CreateCoroutine();
        case Puts(id) =>
          if 1 <= id <= currentSize {
            Put(id);
          }
        case Terminates =>
          Terminate();
      }
    }

    method DoActs(coro: CoroutineInfo, acts: seq<Act>)
      requires Valid() && coro == currentCoro && Running(coro)
      modifies this, nodes, allCoro
      ensures Valid() && v == M.DoActs(old(v), acts)
      ensures coro == currentCoro && Running(coro) && coro.uid == old(coro.uid)
      ensures fresh(nodes - old(nodes))
    {
      ghost var id := coro.uid;
      var it := 0;
      while it < |acts|
        invariant it <= |acts| && Valid() && coro == currentCoro && coro.uid == id && Running(coro)
        invariant fresh(nodes - old(nodes))
        invariant M.DoActs(v, acts[it..]) == M.DoActs(old(v), acts)
      {
        assert acts[it..][1..] == acts[it + 1..];
        DoActSound(v, acts[it]);
        DoAct(acts[it]);
        assert Table() && allCoro[id] == coro;
        it := it + 1;
      }
    }

    method GiveBack(e: Ending)
      requires Valid() && Running(currentCoro)
      modifies this, nodes
      ensures Valid() && v == End(old(v), old(currentCoro.uid), e) && nodes == old(nodes)
    {
      match e {
        case Yields(flag) => Yield(flag);
        case Sleeps(at, ms) => Sleep(at, ms);
        case Finishes => Finish();
      }
    }

    /** switchCoro(coro): coro runs, doing what b says, until it gives the processor back. */
    method SwitchCoro(coro: CoroutineInfo, b: Burst)
      requires Valid() && Running(coro)
      modifies this, nodes, allCoro
      ensures Valid() && v == Switch(old(v), old(coro.uid), b)
      ensures fresh(nodes - old(nodes))
    {
      SwitchTo(coro);
      DoActs(coro, b.acts);
      GiveBack(b.ending);
    }

    method SwitchTo(coro: CoroutineInfo)
      requires Valid()
      modifies this`currentCoro
      ensures Valid() && currentCoro == coro
    {
      currentCoro := coro;
      KeepsLinks();
    }

    // ----- the main loop -----

    method ListEmpty(s: Status) returns (empty: bool)
      requires Linked()
      ensures empty <==> At(v.lists, s) == []
    {
      assert Members(s) && Circle(s);
      empty := CoroutineInfo.HeadEmpty(Head(s), At(rings, s));
    }

    /** Switches to the first coroutine of a runnable list. */
    method ServeFirst(s: Status, b: Burst) returns (empty: bool)
      requires Valid() && (s == Active || s == Avail) && At(v.lists, s) != []
      modifies this, nodes, allCoro
      ensures Valid() && At(old(v).lists, s) != [] && v == Switch(old(v), At(old(v).lists, s)[0], b)
      ensures fresh(nodes - old(nodes))
      ensures empty <==> At(v.lists, s) == []
    {
      FirstOf(s);
      SwitchCoro(Head(s).next, b);
      empty := ListEmpty(s);
    }

    method RunActive(env: nat -> Burst)
      requires Valid()
      modifies this, nodes, allCoro
      ensures Valid() && v == M.RunActive(old(v), 100, env) && fresh(nodes - old(nodes))
    {
      var iLoop: nat := 100;
      var empty := ListEmpty(Active);
      while iLoop > 0 && !empty
        invariant Valid() && fresh(nodes - old(nodes))
        invariant empty <==> At(v.lists, Active) == []
        invariant M.RunActive(v, iLoop, env) == M.RunActive(old(v), 100, env)
      {
        empty := ServeFirst(Active, env(iLoop));
        iLoop := iLoop - 1;
      }
    }

    method RunAvail(limit: nat, env: nat -> Burst)
      requires Valid()
      modifies this, nodes, allCoro
      ensures Valid() && v == M.RunAvail(old(v), limit, env) && fresh(nodes - old(nodes))
    {
      var iLoop: nat := limit;
      var empty := ListEmpty(Avail);
      while iLoop > 0 && !empty
        invariant Valid() && fresh(nodes - old(nodes))
        invariant empty <==> At(v.lists, Avail) == []
        invariant M.RunAvail(v, iLoop, env) == M.RunAvail(old(v), limit, env)
      {
        empty := ServeFirst(Avail, env(iLoop));
        iLoop := iLoop - 1;
      }
    }

    /** tars_run(): one pass, with up to 100 coroutines from each runnable list. */
    method TarsRun(iNow: int, stop: nat, env: nat -> Burst, env': nat -> Burst)
      requires Valid()
      modifies this, nodes, allCoro
      ensures Valid() && v == Pass(old(v), iNow, stop, 100, env, env') && fresh(nodes - old(nodes))
    {
      if !terminal {
        WakeUpAll(iNow, stop);
        RunActive(env);
        RunAvail(100, env');
      }
    }

    /** The body of run()'s loop, and whether the loop is left after it. */
    method RunOnce(iNow: int, stop: nat, env: nat -> Burst, env': nat -> Burst) returns (done: bool)
      requires Valid() && !terminal
      modifies this, nodes, allCoro
      ensures Valid() && v == Pass(old(v), iNow, stop, 1, env, env') && fresh(nodes - old(nodes))
      ensures done <==> forall s :: s != Free ==> At(v.lists, s) == []
    {
      WakeUpAll(iNow, stop);
      RunActive(env);
      RunAvail(1, env');
      done := usedSize == 0;
      NobodyAbandoned(v);
    }
  }
}
