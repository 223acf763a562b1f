/** The coroutine scheduler on values: five lists of coroutine ids, the status each coroutine
    carries, and the three wake-up sources. The class in CoroutineScheduler.dfy keeps the same
    state in linked nodes and is proved to do what these functions say. */
module CoroutineModel {
  import opened Basics

  datatype Status = Free | Active | Avail | Inactive | Timeout

  /** One sequence per status; the value form of the scheduler's five circular lists. */
  type Lists<T> = map<Status, seq<T>>

  function At<T>(l: Lists<T>, s: Status): seq<T> {
    if s in l then l[s] else []
  }

  /** An entry of the timeout multimap. */
  datatype Alarm = Alarm(at: int, id: nat)

  /** asleepUntil and yielded are history: the deadline of each coroutine's latest sleep, and the
      coroutines whose latest yield asked to be woken by the scheduler itself. */
  datatype Sched = Sched(
    terminal: bool,
    poolSize: nat,
    currentSize: nat,
    usedSize: nat,
    uniqId: nat,
    lists: Lists<nat>,
    status: map<nat, Status>,
    need: seq<nat>,
    queue: seq<nat>,
    alarms: seq<Alarm>,
    asleepUntil: map<nat, int>,
    yielded: set<nat>)

  // ----- counting -----

  function Count<T(==)>(s: seq<T>, x: T): nat {
    if s == [] then 0 else (if s[0] == x then 1 else 0) + Count(s[1..], x)
  }

  lemma {:induction false} CountIn<T>(s: seq<T>, x: T)
    ensures x in s <==> Count(s, x) > 0
  {
    if s != [] {
      assert s == [s[0]] + s[1..];
      CountIn(s[1..], x);
    }
  }

  lemma {:induction false} CountAppend<T>(s: seq<T>, t: seq<T>, x: T)
    ensures Count(s + t, x) == Count(s, x) + Count(t, x)
  {
    if s == [] {
      assert s + t == t;
    } else {
      assert s + t == [s[0]] + (s[1..] + t);
      CountAppend(s[1..], t, x);
    }
  }

  lemma {:induction false} CountWithout<T>(s: seq<T>, x: T, y: T)
    requires x in s
    ensures Count(Without(s, x), y) == Count(s, y) - if x == y then 1 else 0
    ensures |Without(s, x)| == |s| - 1
  {
    assert s == [s[0]] + s[1..];
    if s[0] != x {
      CountWithout(s[1..], x, y);
    }
  }

  lemma {:induction false} WithoutNone<T>(s: seq<T>, x: T)
    requires x !in s
    ensures Without(s, x) == s
  {
    if s != [] {
      assert s == [s[0]] + s[1..];
      WithoutNone(s[1..], x);
    }
  }

  /** A sequence of distinct ids 1..n is n long exactly when it holds them all. */
  lemma {:induction false} Pigeonhole(s: seq<nat>, n: nat)
    requires forall x: nat :: Count(s, x) <= if 1 <= x <= n then 1 else 0
    ensures |s| <= n
    ensures |s| == n ==> forall x: nat :: 1 <= x <= n ==> Count(s, x) == 1
    ensures |s| < n ==> exists x: nat :: 1 <= x <= n && Count(s, x) == 0
    decreases n
  {
    if n == 0 {
      if s != [] { CountIn(s, s[0]); }
    } else if Count(s, n) == 1 {
      var t := Without(s, n);
      CountIn(s, n);
      CountWithout(s, n, n);
      forall x: nat ensures Count(t, x) == Count(s, x) - if x == n then 1 else 0 { CountWithout(s, n, x); }
      Pigeonhole(t, n - 1);
      if |s| == n {
        forall x: nat | 1 <= x <= n ensures Count(s, x) == 1 { assert x < n ==> Count(t, x) == 1; }
      } else {
        var x: nat :| 1 <= x <= n - 1 && Count(t, x) == 0;
        assert Count(s, x) == 0;
      }
    } else {
      Pigeonhole(s, n - 1);
      assert Count(s, n) == 0;
    }
  }

  // ----- the invariant -----

  /** The lists and the statuses agree: each id is once in the list its status names, and in no other. */
  ghost predicate Listed(lists: Lists<nat>, status: map<nat, Status>) {
    forall s, i: nat {:trigger Count(At(lists, s), i)} :: Count(At(lists, s), i) == if i in status && status[i] == s then 1 else 0
  }

  /** Created coroutines are numbered 1..currentSize, listed where their status says, and counted. */
  ghost predicate Shape(v: Sched) {
    && v.currentSize <= v.poolSize
    && v.uniqId == v.currentSize
    && (forall i: nat :: i in v.status <==> 1 <= i <= v.currentSize)
    && Listed(v.lists, v.status)
    && v.usedSize + |At(v.lists, Free)| == v.currentSize
  }

  ghost predicate Sorted(a: seq<Alarm>) {
    forall i, j :: 0 <= i < j < |a| ==> a[i].at <= a[j].at
  }

  /** The wake-up sources name only created coroutines and lose nobody. */
  ghost predicate NobodyLost(v: Sched) {
    && (forall i: nat :: i in v.need ==> i in v.status)
    && (forall i: nat :: i in v.queue ==> i in v.status)
    && (forall a :: a in v.alarms ==> a.id in v.status)
    && Sorted(v.alarms)
    && (!v.terminal ==>
          && (forall i: nat :: i in v.status && v.status[i] == Timeout ==>
                i in v.asleepUntil && Alarm(v.asleepUntil[i], i) in v.alarms)
          && (forall i: nat :: i in v.status && v.status[i] == Inactive && i in v.yielded ==> i in v.need))
  }

  ghost predicate Inv(v: Sched) {
    Shape(v) && NobodyLost(v)
  }

  // ----- moves between lists -----

  function Move(v: Sched, id: nat, s: Status): Sched
    requires id in v.status
  {
    var off := v.lists[v.status[id] := Without(At(v.lists, v.status[id]), id)];
    v.(lists := off[s := At(off, s) + [id]], status := v.status[id := s])
  }

  function MoveToActive(v: Sched, id: nat): Sched
    requires id in v.status
  {
    if v.status[id] == Inactive || v.status[id] == Timeout then Move(v, id, Active) else v
  }

  function MoveToAvail(v: Sched, id: nat): Sched
    requires id in v.status
  {
    if v.status[id] == Inactive then Move(v, id, Avail) else v
  }

  function MoveToInactive(v: Sched, id: nat): Sched
    requires id in v.status
  {
    if v.status[id] == Active || v.status[id] == Avail then Move(v, id, Inactive) else v
  }

  function MoveToTimeout(v: Sched, id: nat): Sched
    requires id in v.status
  {
    if v.status[id] == Active || v.status[id] == Avail then Move(v, id, Timeout) else v
  }

  function MoveToFree(v: Sched, id: nat): Sched
    requires id in v.status
  {
    if v.status[id] == Free then v else Move(v, id, Free)
  }

  /** A move between two different lists that are not the free list keeps the shape. */
  lemma MoveKeepsShape(v: Sched, id: nat, s: Status)
    requires Shape(v) && id in v.status && v.status[id] != s
    requires v.status[id] != Free && s != Free
    ensures Shape(Move(v, id, s))
  {
    MoveSplits(v, id, s);
  }

  lemma MoveSplits(v: Sched, id: nat, s: Status)
    requires Listed(v.lists, v.status) && id in v.status && v.status[id] != s
    ensures var w := Move(v, id, s);
            && Listed(w.lists, w.status)
            && w.status.Keys == v.status.Keys
            && |At(w.lists, s)| == |At(v.lists, s)| + 1
            && |At(w.lists, v.status[id])| == |At(v.lists, v.status[id])| - 1
  {
    var from, w := v.status[id], Move(v, id, s);
    CountIn(At(v.lists, from), id);
    CountWithout(At(v.lists, from), id, id);
    forall t, i: nat ensures Count(At(w.lists, t), i) == if i in w.status && w.status[i] == t then 1 else 0 {
      CountWithout(At(v.lists, from), id, i);
      CountAppend(At(v.lists, s), [id], i);
      assert Count(At(v.lists, t), i) == if i in v.status && v.status[i] == t then 1 else 0;
    }
  }

  // ----- creating coroutines -----

  function Grow(v: Sched): Sched {
    var inc := if v.poolSize - v.currentSize > 100 then 100 else v.poolSize - v.currentSize;
    if inc <= 0 then v else AddFree(v, inc)
  }

  /** A fresh coroutine with the next number, at the tail of the free list. */
  function AddOne(w: Sched): Sched {
    var id: nat := w.uniqId + 1;
    w.(uniqId := id,
       currentSize := w.currentSize + 1,
       lists := w.lists[Free := At(w.lists, Free) + [id]],
       status := w.status[id := Free])
  }

  function AddFree(v: Sched, n: nat): Sched
    decreases n
  {
    if n == 0 then v else AddOne(AddFree(v, n - 1))
  }

  /** w is v with more free coroutines. */
  ghost predicate Extends(v: Sched, w: Sched) {
    && w == v.(uniqId := w.uniqId, currentSize := w.currentSize, lists := w.lists, status := w.status)
    && (forall s :: s != Free ==> At(w.lists, s) == At(v.lists, s))
    && (forall i: nat :: i in v.status ==> i in w.status && w.status[i] == v.status[i])
  }

  lemma ExtendsFurther(u: Sched, v: Sched, w: Sched)
    requires Extends(u, v) && Extends(v, w)
    ensures Extends(u, w)
  {
  }

  lemma AddOneListed(lists: Lists<nat>, status: map<nat, Status>, id: nat)
    requires Listed(lists, status) && id !in status
    ensures Listed(lists[Free := At(lists, Free) + [id]], status[id := Free])
  {
    var ls, st := lists[Free := At(lists, Free) + [id]], status[id := Free];
    forall t, i: nat ensures Count(At(ls, t), i) == if i in st && st[i] == t then 1 else 0 {
      assert Count(At(lists, t), i) == if i in status && status[i] == t then 1 else 0;
      if t == Free {
        CountAppend(At(lists, Free), [id], i);
        assert Count([id], i) == if i == id then 1 else 0;
      }
    }
  }

  lemma AddOneKeepsInv(w: Sched)
    requires Inv(w) && w.currentSize < w.poolSize
    ensures Inv(AddOne(w)) && Extends(w, AddOne(w))
  {
    AddOneListed(w.lists, w.status, w.uniqId + 1);
  }

  lemma {:induction false} AddFreeKeepsInv(v: Sched, n: nat)
    requires Inv(v) && v.currentSize + n <= v.poolSize
    ensures var w := AddFree(v, n);
            && Inv(w)
            && w.currentSize == v.currentSize + n
            && Extends(v, w) && At(v.lists, Free) <= At(w.lists, Free)
            && (n > 0 ==> |At(w.lists, Free)| > |At(v.lists, Free)| && At(w.lists, Free)[|At(v.lists, Free)|] == v.currentSize + 1)
  {
    if n > 0 {
      var u := AddFree(v, n - 1);
      AddFreeKeepsInv(v, n - 1);
      AddOneKeepsInv(u);
      ExtendsFurther(v, u, AddOne(u));
    }
  }

  /** After increaseCoroPoolSize there is a free coroutine, unless all poolSize are in use. */
  lemma GrowKeepsInv(v: Sched)
    requires Inv(v)
    ensures var w := Grow(v);
            && Inv(w)
            && Extends(v, w)
            && (At(w.lists, Free) == [] ==> v.usedSize == v.poolSize && w == v)
            && w.currentSize == (if v.currentSize + 100 < v.poolSize then v.currentSize + 100 else v.poolSize)
            && (At(v.lists, Free) == [] && At(w.lists, Free) != [] ==> At(w.lists, Free)[0] == v.currentSize + 1)
  {
    var inc := if v.poolSize - v.currentSize > 100 then 100 else v.poolSize - v.currentSize;
    AddFreeKeepsInv(v, inc);
  }

  function Topped(v: Sched): Sched {
    if v.usedSize >= v.currentSize || |At(v.lists, Free)| == 0 then Grow(v) else v
  }

  /** createCoroutine: the new state and the id handed out, 0 on failure. */
  function Create(v: Sched): (Sched, nat) {
    var w := Topped(v);
    if At(w.lists, Free) == [] || At(w.lists, Free)[0] !in w.status then (w, 0)
    else (Take(w, At(w.lists, Free)[0]), At(w.lists, Free)[0])
  }

  function Take(w: Sched, id: nat): Sched
    requires id in w.status
  {
    Move(w, id, Avail).(usedSize := w.usedSize + 1)
  }

  lemma TakeSound(w: Sched)
    requires Inv(w) && At(w.lists, Free) != []
    ensures var id := At(w.lists, Free)[0];
            && id != 0 && id in w.status && w.status[id] == Free
            && Inv(Take(w, id)) && CarriesOver(w, Take(w, id)) && Take(w, id).status[id] == Avail
            && At(Take(w, id).lists, Avail) == At(w.lists, Avail) + [id]
  {
    var id := At(w.lists, Free)[0];
    CountIn(At(w.lists, Free), id);
    MoveSplits(w, id, Avail);
  }

  /** How many coroutines there are after a creation: at most 100 more, and only when none is free. */
  function CoroutinesAfter(v: Sched): nat {
    if v.usedSize < v.currentSize then v.currentSize
    else if v.currentSize + 100 < v.poolSize then v.currentSize + 100 else v.poolSize
  }

  lemma ToppedSound(v: Sched)
    requires Inv(v)
    ensures var w := Topped(v);
            && Inv(w) && Extends(v, w)
            && (if At(w.lists, Free) == [] then w == v && v.usedSize == v.poolSize else v.usedSize < v.poolSize)
            && (v.usedSize < v.currentSize ==> w == v)
            && (v.usedSize == v.currentSize && At(w.lists, Free) != [] ==> At(w.lists, Free)[0] == v.currentSize + 1)
            && w.currentSize == CoroutinesAfter(v)
  {
    GrowKeepsInv(v);
  }

  /** Coroutines are refused exactly when all poolSize of them are in use; otherwise the oldest
      free coroutine moves to the tail of the available list. */
  lemma CreateSound(v: Sched)
    requires Inv(v)
    ensures Inv(Create(v).0)
    ensures Create(v).1 == 0 <==> v.usedSize == v.poolSize
    ensures Create(v).1 == 0 ==> Create(v).0 == v
    ensures Create(v).1 != 0 ==>
              && var id := Create(v).1;
              && (id in v.status ==> v.status[id] == Free)
              && id in Create(v).0.status && Create(v).0.status[id] == Avail
              && At(Create(v).0.lists, Avail) == At(v.lists, Avail) + [id]
              && Create(v).0.usedSize == v.usedSize + 1
              && (if v.usedSize < v.currentSize then At(v.lists, Free) != [] && id == At(v.lists, Free)[0]
                  else id == v.currentSize + 1)
    ensures Create(v).0.currentSize == CoroutinesAfter(v)
    ensures CarriesOver(v, Create(v).0)
  {
    ToppedSound(v);
    var w := Topped(v);
    if At(w.lists, Free) != [] {
      TakeSound(w);
      CarriesOnOver(v, w, Take(w, At(w.lists, Free)[0]));
    }
  }

  /** What no creation disturbs: the active list and every coroutine in use. */
  ghost predicate CarriesOver(v: Sched, w: Sched) {
    && (v.terminal ==> w.terminal)
    && At(w.lists, Active) == At(v.lists, Active)
    && At(v.lists, Avail) <= At(w.lists, Avail)
    && (forall i: nat :: i in v.status ==> i in w.status)
    && (forall i: nat :: i in v.status && v.status[i] != Free ==> w.status[i] == v.status[i])
  }

  // ----- what the running coroutine and other threads do -----

  function Terminate(v: Sched): Sched {
    v.(terminal := true)
  }

  function Put(v: Sched, id: nat): Sched {
    if v.terminal then v else v.(queue := v.queue + [id])
  }

  function Yield(v: Sched, id: nat, flag: bool): Sched
    requires id in v.status
  {
    var w := if flag && !v.terminal then v.(need := v.need + [id]) else v;
    MoveToInactive(w, id).(yielded := if flag then v.yielded + {id} else v.yielded - {id})
  }

  /** The multimap insertion: after every entry that is due no later. */
  function InsertAlarm(a: seq<Alarm>, x: Alarm): seq<Alarm> {
    if a == [] || a[0].at > x.at then [x] + a else [a[0]] + InsertAlarm(a[1..], x)
  }

  lemma {:induction false} InsertAlarmSorted(a: seq<Alarm>, x: Alarm)
    requires Sorted(a)
    ensures Sorted(InsertAlarm(a, x))
    ensures forall y :: y in InsertAlarm(a, x) <==> y == x || y in a
  {
    if a == [] || a[0].at > x.at {
    } else {
      InsertAlarmSorted(a[1..], x);
      var r := InsertAlarm(a[1..], x);
      assert a == [a[0]] + a[1..];
      forall j | 0 <= j < |r| ensures a[0].at <= r[j].at {
        assert r[j] in r;
      }
    }
  }

  function Sleep(v: Sched, id: nat, at: int, ms: int): Sched
    requires id in v.status
  {
    var due := at + if ms >= 0 then ms else -ms;
    MoveToTimeout(v.(alarms := InsertAlarm(v.alarms, Alarm(due, id)), asleepUntil := v.asleepUntil[id := due]), id)
  }

  function Finish(v: Sched, id: nat): Sched
    requires id in v.status && v.usedSize > 0
  {
    MoveToFree(v.(usedSize := v.usedSize - 1), id)
  }

  /** How a coroutine gives the processor back. */
  datatype Ending = Yields(flag: bool) | Sleeps(at: int, ms: int) | Finishes

  /** What happens while a coroutine runs: it creates coroutines, and any thread may ask for one
      to be woken, or terminate the scheduler; a request that names no created coroutine is no call at all. */
  datatype Act = Creates | Puts(id: nat) | Terminates

  datatype Burst = Burst(acts: seq<Act>, ending: Ending)

  function DoAct(v: Sched, a: Act): Sched {
    match a
    case Creates => Create(v).0
    case Puts(id) => if id in v.status then Put(v, id) else v
    case Terminates => Terminate(v)
  }

  function DoActs(v: Sched, acts: seq<Act>): Sched
    decreases |acts|
  {
    if acts == [] then v else DoActs(DoAct(v, acts[0]), acts[1..])
  }

  function End(v: Sched, id: nat, e: Ending): Sched
    requires id in v.status
  {
    match e
    case Yields(flag) => Yield(v, id, flag)
    case Sleeps(at, ms) => Sleep(v, id, at, ms)
    case Finishes => if v.usedSize > 0 then Finish(v, id) else v
  }

  ghost predicate Runnable(v: Sched, id: nat) {
    id in v.status && (v.status[id] == Active || v.status[id] == Avail)
  }

  /** switchCoro: the coroutine runs until it yields, sleeps or finishes. */
  function Switch(v: Sched, id: nat, b: Burst): Sched {
    var w := DoActs(v, b.acts);
    if id in w.status then End(w, id, b.ending) else w
  }

  lemma {:induction false} DoActsSound(v: Sched, acts: seq<Act>)
    requires Inv(v)
    ensures Inv(DoActs(v, acts)) && CarriesOver(v, DoActs(v, acts))
    decreases |acts|
  {
    if acts != [] {
      var w := DoAct(v, acts[0]);
      DoActSound(v, acts[0]);
      DoActsSound(w, acts[1..]);
      CarriesOnOver(v, w, DoActs(w, acts[1..]));
    }
  }

  lemma DoActSound(v: Sched, a: Act)
    requires Inv(v)
    ensures Inv(DoAct(v, a)) && CarriesOver(v, DoAct(v, a))
  {
    if a == Creates { CreateSound(v); }
  }

  lemma CarriesOnOver(u: Sched, v: Sched, w: Sched)
    requires CarriesOver(u, v) && CarriesOver(v, w)
    ensures CarriesOver(u, w)
  {
  }

  lemma InUse(v: Sched, id: nat)
    requires Shape(v) && id in v.status && v.status[id] != Free
    ensures v.usedSize > 0
  {
    var s := At(v.lists, Free);
    Pigeonhole(s, v.currentSize);
    assert Count(s, id) == 0;
  }

  /** A runnable coroutine leaves the list it is on and the other runnable list is untouched. */
  lemma MoveOff(v: Sched, id: nat, s: Status, t: Status)
    requires Shape(v) && Runnable(v, id)
    requires s != Active && s != Avail
    requires t == Active || t == Avail
    ensures At(Move(v, id, s).lists, t) == Without(At(v.lists, t), id)
  {
    CountIn(At(v.lists, t), id);
    if v.status[id] != t { WithoutNone(At(v.lists, t), id); }
  }

  lemma SleepKeepsInv(v: Sched, id: nat, at: int, ms: int)
    requires Inv(v) && Runnable(v, id)
    ensures Inv(Sleep(v, id, at, ms))
  {
    InsertAlarmSorted(v.alarms, Alarm(at + if ms >= 0 then ms else -ms, id));
    MoveKeepsShape(v, id, Timeout);
  }

  lemma YieldKeepsInv(v: Sched, id: nat, flag: bool)
    requires Inv(v) && Runnable(v, id)
    ensures Inv(Yield(v, id, flag))
  {
    MoveKeepsShape(v, id, Inactive);
  }

  lemma FinishKeepsInv(v: Sched, id: nat)
    requires Inv(v) && Runnable(v, id)
    ensures v.usedSize > 0 && Inv(Finish(v, id))
  {
    InUse(v, id);
    MoveSplits(v, id, Free);
  }

  lemma EndSound(v: Sched, id: nat, e: Ending)
    requires Inv(v) && Runnable(v, id)
    ensures var w := End(v, id, e);
            && Inv(w)
            && !Runnable(w, id)
            && At(w.lists, Active) == Without(At(v.lists, Active), id)
            && At(w.lists, Avail) == Without(At(v.lists, Avail), id)
  {
    var s := match e case Yields(_) => Inactive case Sleeps(_, _) => Timeout case Finishes => Free;
    match e {
      case Yields(flag) => YieldKeepsInv(v, id, flag);
      case Sleeps(at, ms) => SleepKeepsInv(v, id, at, ms);
      case Finishes => FinishKeepsInv(v, id);
    }
    assert End(v, id, e).lists == Move(v, id, s).lists;
    MoveOff(v, id, s, Active);
    MoveOff(v, id, s, Avail);
  }

  /** One switch leaves the invariant, takes the coroutine off the runnable lists, and can only
      lengthen the available list otherwise; the active list never grows while coroutines run. */
  lemma SwitchSound(v: Sched, id: nat, b: Burst)
    requires Inv(v) && Runnable(v, id)
    ensures Inv(Switch(v, id, b))
    ensures At(Switch(v, id, b).lists, Active) == Without(At(v.lists, Active), id)
    ensures Without(At(v.lists, Avail), id) <= At(Switch(v, id, b).lists, Avail)
    ensures !Runnable(Switch(v, id, b), id)
  {
    var w := DoActs(v, b.acts);
    DoActsSound(v, b.acts);
    EndSound(w, id, b.ending);
    var r := Switch(v, id, b);
    assert At(r.lists, Active) == Without(At(w.lists, Active), id);
    assert At(r.lists, Avail) == Without(At(w.lists, Avail), id);
    CountIn(At(v.lists, Avail), id);
    CountIn(At(w.lists, Avail), id);
    WithoutPrefix(At(v.lists, Avail), At(w.lists, Avail), id);
  }

  lemma {:induction false} WithoutPrefix(a: seq<nat>, b: seq<nat>, x: nat)
    requires a <= b
    requires x in b ==> x in a
    ensures Without(a, x) <= Without(b, x)
  {
    if a != [] && a[0] != x {
      assert b == [b[0]] + b[1..];
      assert a == [a[0]] + a[1..];
      WithoutPrefix(a[1..], b[1..], x);
    }
  }

  // ----- waking up -----

  function WakeAllAvail(v: Sched, ids: seq<nat>): Sched
    decreases |ids|
  {
    if ids == [] then v else
    WakeAllAvail(if ids[0] in v.status then MoveToAvail(v, ids[0]) else v, ids[1..])
  }

  function WakeBySelf(v: Sched): Sched {
    if v.terminal then v else WakeAllAvail(v, v.need).(need := [])
  }

  function WakeAllActive(v: Sched, ids: seq<nat>): Sched
    decreases |ids|
  {
    if ids == [] then v else
    WakeAllActive(if ids[0] in v.status then MoveToActive(v, ids[0]) else v, ids[1..])
  }

  function Wake(v: Sched): Sched {
    if v.terminal then v else WakeAllActive(v.(queue := []), v.queue)
  }

  function DrainAlarms(v: Sched, now: int): Sched
    decreases |v.alarms|
  {
    if v.alarms == [] || v.alarms[0].at > now then v else DrainAlarms(DrainOne(v), now)
  }

  function DrainOne(v: Sched): Sched
    requires v.alarms != []
  {
    var id := v.alarms[0].id;
    (if id in v.status then MoveToActive(v, id) else v).(alarms := v.alarms[1..])
  }

  function WakeByTimeout(v: Sched, now: int): Sched {
    if v.terminal then v else DrainAlarms(v, now)
  }

  /** Some entry for id is due by now. */
  ghost predicate Due(alarms: seq<Alarm>, id: nat, now: int) {
    exists a :: a in alarms && a.id == id && a.at <= now
  }

  lemma DueStep(alarms: seq<Alarm>, id: nat, now: int)
    requires alarms != [] && alarms[0].at <= now
    ensures Due(alarms, id, now) <==> alarms[0].id == id || Due(alarms[1..], id, now)
  {
    assert alarms == [alarms[0]] + alarms[1..];
    assert alarms[0] in alarms;
    if Due(alarms, id, now) && alarms[0].id != id {
      var a :| a in alarms && a.id == id && a.at <= now;
      assert a in alarms[1..];
    }
  }

  lemma RungOn(v: Sched, now: int)
    requires v.alarms != [] && v.alarms[0].at <= now && DrainOne(v).status.Keys == v.status.Keys
    ensures var u := DrainOne(v);
            (map i | i in u.status :: RungStatus(u, i, now)) == map i | i in v.status :: RungStatus(v, i, now)
  {
    forall i: nat | i in v.status ensures RungStatus(DrainOne(v), i, now) == RungStatus(v, i, now) {
      DueStep(v.alarms, i, now);
    }
  }

  /** wakeupbytimeout, exactly: the entries due by now are removed, every sleeping or inactive
      coroutine named by one of them becomes active, and nothing else changes status. */
  lemma {:induction false} DrainAlarmsExact(v: Sched, now: int)
    requires Shape(v) && Sorted(v.alarms)
    requires forall a :: a in v.alarms ==> a.id in v.status
    ensures var w := DrainAlarms(v, now);
            && Shape(w)
            && w == v.(lists := w.lists, status := w.status, alarms := w.alarms)
            && Sorted(w.alarms)
            && (forall a :: a in w.alarms <==> a in v.alarms && a.at > now)
            && w.status == map i | i in v.status :: RungStatus(v, i, now)
    decreases |v.alarms|
  {
    if v.alarms != [] && v.alarms[0].at <= now {
      var u := DrainOne(v);
      DrainOneSound(v);
      DrainAlarmsExact(u, now);
      RungOn(v, now);
    } else {
      assert forall b :: b in v.alarms ==> b.at > now;
      assert v.status == map i | i in v.status :: RungStatus(v, i, now);
    }
  }

  ghost function RungStatus(v: Sched, i: nat, now: int): Status
    requires i in v.status
  {
    if (v.status[i] == Inactive || v.status[i] == Timeout) && Due(v.alarms, i, now) then Active else v.status[i]
  }

  lemma DrainOneSound(v: Sched)
    requires Shape(v) && Sorted(v.alarms) && v.alarms != []
    requires forall a :: a in v.alarms ==> a.id in v.status
    ensures var u := DrainOne(v);
            && Shape(u) && Sorted(u.alarms)
            && u.status.Keys == v.status.Keys
            && forall a :: a in v.alarms <==> a == v.alarms[0] || a in u.alarms
  {
    var a := v.alarms[0];
    assert v.alarms == [a] + v.alarms[1..];
    assert a in v.alarms;
    if v.status[a.id] == Inactive || v.status[a.id] == Timeout {
      MoveKeepsShape(v, a.id, Active);
    }
  }

  /** After wakeupbytimeout at time now, whoever is still asleep has a deadline later than now,
      whatever stale entries earlier wake-ups left behind. */
  lemma NoSleeperOverdue(v: Sched, now: int)
    requires Inv(v) && !v.terminal
    ensures var w := WakeByTimeout(v, now);
            && Inv(w)
            && (forall i: nat :: i in w.status && w.status[i] == Timeout ==>
                  i in w.asleepUntil && w.asleepUntil[i] > now)
  {
    DrainAlarmsExact(v, now);
    var w := WakeByTimeout(v, now);
    forall i | i in w.status && w.status[i] == Timeout
      ensures i in w.asleepUntil && w.asleepUntil[i] > now && Alarm(w.asleepUntil[i], i) in w.alarms
    {
      var own := Alarm(v.asleepUntil[i], i);
      assert own in v.alarms;
    }
  }

  /** Whose sleep ends too soon: exactly the sleepers that left a stale entry behind. */
  lemma WokenEarlyExactly(v: Sched, now: int, id: nat)
    requires Inv(v) && !v.terminal
    requires id in v.status && v.status[id] == Timeout && v.asleepUntil[id] > now
    ensures id in WakeByTimeout(v, now).status
    ensures WakeByTimeout(v, now).status[id] == Active <==> Due(v.alarms, id, now)
  {
    DrainAlarmsExact(v, now);
  }

  ghost function SelfWokenStatus(v: Sched, i: nat, ids: seq<nat>): Status
    requires i in v.status
  {
    if i in ids && v.status[i] == Inactive then Avail else v.status[i]
  }

  lemma MoveToAvailSound(v: Sched, id: nat)
    requires Shape(v) && id in v.status
    ensures var u := MoveToAvail(v, id);
            && Shape(u)
            && u == v.(lists := u.lists, status := u.status)
            && At(u.lists, Active) == At(v.lists, Active)
            && u.status == v.status[id := SelfWokenStatus(v, id, [id])]
  {
    if v.status[id] == Inactive {
      MoveKeepsShape(v, id, Avail);
    } else {
      assert v.status == v.status[id := v.status[id]];
    }
  }

  lemma {:induction false} WakeAllAvailSound(v: Sched, ids: seq<nat>)
    requires Shape(v) && forall i :: i in ids ==> i in v.status
    ensures var w := WakeAllAvail(v, ids);
            && Shape(w)
            && w == v.(lists := w.lists, status := w.status)
            && At(w.lists, Active) == At(v.lists, Active)
            && w.status == map i | i in v.status :: SelfWokenStatus(v, i, ids)
    decreases |ids|
  {
    if ids != [] {
      assert ids == [ids[0]] + ids[1..];
      MoveToAvailSound(v, ids[0]);
      WakeAllAvailSound(MoveToAvail(v, ids[0]), ids[1..]);
    }
  }

  /** wakeupbyself leaves no coroutine waiting on its own yield. */
  lemma WakeBySelfSound(v: Sched)
    requires Inv(v)
    ensures Inv(WakeBySelf(v))
    ensures At(WakeBySelf(v).lists, Active) == At(v.lists, Active)
    ensures !v.terminal ==>
              forall i: nat :: i in v.status && v.status[i] == Inactive && i in v.yielded ==>
                i in WakeBySelf(v).status && WakeBySelf(v).status[i] == Avail
  {
    WakeAllAvailSound(v, v.need);
  }

  ghost function WokenStatus(v: Sched, i: nat, ids: seq<nat>): Status
    requires i in v.status
  {
    if i in ids && (v.status[i] == Inactive || v.status[i] == Timeout) then Active else v.status[i]
  }

  lemma MoveToActiveSound(v: Sched, id: nat)
    requires Shape(v) && id in v.status
    ensures var u := MoveToActive(v, id);
            && Shape(u)
            && u == v.(lists := u.lists, status := u.status)
            && At(v.lists, Active) <= At(u.lists, Active)
            && u.status == v.status[id := WokenStatus(v, id, [id])]
  {
    if v.status[id] == Inactive || v.status[id] == Timeout {
      MoveKeepsShape(v, id, Active);
    } else {
      assert v.status == v.status[id := v.status[id]];
    }
  }

  lemma {:induction false} WakeAllActiveSound(v: Sched, ids: seq<nat>)
    requires Shape(v) && forall i :: i in ids ==> i in v.status
    ensures var w := WakeAllActive(v, ids);
            && Shape(w)
            && w == v.(lists := w.lists, status := w.status)
            && At(v.lists, Active) <= At(w.lists, Active)
            && w.status == map i | i in v.status :: WokenStatus(v, i, ids)
    decreases |ids|
  {
    if ids != [] {
      assert ids == [ids[0]] + ids[1..];
      MoveToActiveSound(v, ids[0]);
      WakeAllActiveSound(MoveToActive(v, ids[0]), ids[1..]);
    }
  }

  lemma WakeSound(v: Sched)
    requires Inv(v)
    ensures Inv(Wake(v))
    ensures At(v.lists, Active) <= At(Wake(v).lists, Active)
    ensures !v.terminal ==>
              forall i: nat :: i in v.queue && (v.status[i] == Inactive || v.status[i] == Timeout) ==>
                i in Wake(v).status && Wake(v).status[i] == Active
  {
    WakeAllActiveSound(v.(queue := []), v.queue);
  }

  // ----- the main loop -----

  function RunActive(v: Sched, n: nat, env: nat -> Burst): Sched
    decreases n
  {
    if n == 0 || At(v.lists, Active) == [] then v else
    RunActive(Switch(v, At(v.lists, Active)[0], env(n)), n - 1, env)
  }

  function RunAvail(v: Sched, n: nat, env: nat -> Burst): Sched
    decreases n
  {
    if n == 0 || At(v.lists, Avail) == [] then v else
    RunAvail(Switch(v, At(v.lists, Avail)[0], env(n)), n - 1, env)
  }

  /** The three wake-ups; stop says whether another thread calls terminate() after the first or after the
      second of them. What put() does between them it could as well have done before. */
  function WakeUp(v: Sched, now: int, stop: nat): Sched {
    Wake(MayStop(WakeBySelf(MayStop(WakeByTimeout(v, now), stop == 1)), stop == 2))
  }

  function MayStop(v: Sched, stops: bool): Sched {
    if stops then Terminate(v) else v
  }

  /** One pass of the main loop: at most 100 active coroutines and at most availLimit available
      ones run (1 in run, 100 in tars_run); env says what each of them does. */
  function Pass(v: Sched, now: int, stop: nat, availLimit: nat, env: nat -> Burst, env': nat -> Burst): Sched {
    if v.terminal then v else
    RunAvail(RunActive(WakeUp(v, now, stop), 100, env), availLimit, env')
  }

  lemma WakeUpSound(v: Sched, now: int, stop: nat)
    requires Inv(v)
    ensures Inv(WakeUp(v, now, stop))
  {
    if !v.terminal { NoSleeperOverdue(v, now); }
    var u := MayStop(WakeByTimeout(v, now), stop == 1);
    WakeBySelfSound(u);
    WakeSound(MayStop(WakeBySelf(u), stop == 2));
  }

  /** The active loop serves the list in order: after it, exactly the first n active coroutines
      are gone and the rest wait unmoved, whatever the ones that ran did. */
  lemma {:induction false} RunActiveServesInOrder(v: Sched, n: nat, env: nat -> Burst)
    requires Inv(v)
    ensures Inv(RunActive(v, n, env))
    ensures At(RunActive(v, n, env).lists, Active) ==
              if n <= |At(v.lists, Active)| then At(v.lists, Active)[n..] else []
    decreases n
  {
    if n > 0 && At(v.lists, Active) != [] {
      var id := At(v.lists, Active)[0];
      CountIn(At(v.lists, Active), id);
      SwitchSound(v, id, env(n));
      assert At(Switch(v, id, env(n)).lists, Active) == At(v.lists, Active)[1..];
      RunActiveServesInOrder(Switch(v, id, env(n)), n - 1, env);
    }
  }

  lemma PrefixLeft(line: seq<nat>, after: seq<nat>, n: nat, left: seq<nat>)
    requires 0 < n <= |line| && line[1..] <= after && after[n - 1..] <= left
    ensures line[n..] <= left
  {
    assert line[n..] == line[1..][n - 1..] <= after[n - 1..];
  }

  /** The available loop serves the list in order too; new coroutines join behind those waiting. */
  lemma {:induction false} RunAvailServesInOrder(v: Sched, n: nat, env: nat -> Burst)
    requires Inv(v)
    ensures Inv(RunAvail(v, n, env))
    ensures At(RunAvail(v, n, env).lists, Active) == At(v.lists, Active)
    ensures n <= |At(v.lists, Avail)| ==> At(v.lists, Avail)[n..] <= At(RunAvail(v, n, env).lists, Avail)
    decreases n
  {
    if n > 0 && At(v.lists, Avail) != [] {
      var id := At(v.lists, Avail)[0];
      CountIn(At(v.lists, Avail), id);
      CountIn(At(v.lists, Active), id);
      WithoutNone(At(v.lists, Active), id);
      var w := Switch(v, id, env(n));
      SwitchSound(v, id, env(n));
      RunAvailServesInOrder(w, n - 1, env);
      if n <= |At(v.lists, Avail)| {
        PrefixLeft(At(v.lists, Avail), At(w.lists, Avail), n, At(RunAvail(w, n - 1, env).lists, Avail));
      }
    }
  }

  /** When no coroutine is in use, which is when run() leaves its loop, nobody is left behind. */
  lemma NobodyAbandoned(v: Sched)
    requires Inv(v)
    ensures v.usedSize == 0 <==> forall s :: s != Free ==> At(v.lists, s) == []
  {
    if v.usedSize == 0 {
      forall s | s != Free ensures At(v.lists, s) == [] {
        if At(v.lists, s) != [] {
          var x := At(v.lists, s)[0];
          CountIn(At(v.lists, s), x);
          InUse(v, x);
        }
      }
    } else if forall s: Status :: s != Free ==> At(v.lists, s) == [] {
      Pigeonhole(At(v.lists, Free), v.currentSize);
      forall i: nat | 1 <= i <= v.currentSize ensures Count(At(v.lists, Free), i) == 1 {
        assert Count(At(v.lists, v.status[i]), i) == 1;
      }
    }
  }

  // ----- how long an available coroutine waits -----

  lemma {:induction false} DrainKeepsLine(v: Sched, now: int)
    ensures At(DrainAlarms(v, now).lists, Avail) == At(v.lists, Avail)
    decreases |v.alarms|
  {
    if v.alarms != [] && v.alarms[0].at <= now {
      DrainKeepsLine(DrainOne(v), now);
    }
  }

  lemma {:induction false} WakeAllAvailKeepsLine(v: Sched, ids: seq<nat>)
    ensures At(v.lists, Avail) <= At(WakeAllAvail(v, ids).lists, Avail)
    decreases |ids|
  {
    if ids != [] {
      WakeAllAvailKeepsLine(if ids[0] in v.status then MoveToAvail(v, ids[0]) else v, ids[1..]);
    }
  }

  lemma {:induction false} WakeAllActiveKeepsLine(v: Sched, ids: seq<nat>)
    ensures At(WakeAllActive(v, ids).lists, Avail) == At(v.lists, Avail)
    decreases |ids|
  {
    if ids != [] {
      WakeAllActiveKeepsLine(if ids[0] in v.status then MoveToActive(v, ids[0]) else v, ids[1..]);
    }
  }

  /** The wake-ups put nobody in front of the available coroutines, and take none of them out. */
  lemma WakeUpKeepsLine(v: Sched, now: int, stop: nat)
    ensures At(v.lists, Avail) <= At(WakeUp(v, now, stop).lists, Avail)
  {
    DrainKeepsLine(v, now);
    var u := MayStop(WakeByTimeout(v, now), stop == 1);
    WakeAllAvailKeepsLine(u, u.need);
    var w := MayStop(WakeBySelf(u), stop == 2);
    WakeAllActiveKeepsLine(w.(queue := []), w.queue);
  }

  /** Nor do the active coroutines while they run. */
  lemma {:induction false} RunActiveKeepsLine(v: Sched, n: nat, env: nat -> Burst)
    requires Inv(v)
    ensures At(v.lists, Avail) <= At(RunActive(v, n, env).lists, Avail)
    decreases n
  {
    if n > 0 && At(v.lists, Active) != [] {
      var id := At(v.lists, Active)[0];
      CountIn(At(v.lists, Active), id);
      CountIn(At(v.lists, Avail), id);
      WithoutNone(At(v.lists, Avail), id);
      SwitchSound(v, id, env(n));
      RunActiveKeepsLine(Switch(v, id, env(n)), n - 1, env);
    }
  }

  /** The coroutines the available loop switches to, in order. */
  function Served(v: Sched, n: nat, env: nat -> Burst): seq<nat>
    decreases n
  {
    if n == 0 || At(v.lists, Avail) == [] then []
    else
      var id := At(v.lists, Avail)[0];
      [id] + Served(Switch(v, id, env(n)), n - 1, env)
  }

  lemma {:induction false} ServedInOrder(v: Sched, n: nat, env: nat -> Burst)
    requires Inv(v)
    ensures var line := At(v.lists, Avail); (if n <= |line| then line[..n] else line) <= Served(v, n, env)
    decreases n
  {
    if n > 0 && At(v.lists, Avail) != [] {
      var line := At(v.lists, Avail);
      var w := Switch(v, line[0], env(n));
      CountIn(line, line[0]);
      SwitchSound(v, line[0], env(n));
      ServedInOrder(w, n - 1, env);
      PrefixServed(line, At(w.lists, Avail), n, Served(w, n - 1, env));
    }
  }

  lemma PrefixServed(line: seq<nat>, after: seq<nat>, n: nat, served: seq<nat>)
    requires line != [] && n > 0 && line[1..] <= after
    requires (if n - 1 <= |after| then after[..n - 1] else after) <= served
    ensures (if n <= |line| then line[..n] else line) <= [line[0]] + served
  {
    var m := if n <= |line| then n else |line|;
    forall k | 0 < k < m ensures line[k] == served[k - 1] {
      assert line[k] == line[1..][k - 1] == after[k - 1];
    }
  }

  /** Those a pass switches to from the available list. */
  function PassServes(v: Sched, e: Event): seq<nat>
    requires e.Looped?
  {
    if v.terminal then [] else Served(RunActive(WakeUp(v, e.now, e.stop), 100, e.env), e.availLimit, e.env')
  }

  /** Up to the available loop, nobody in line moves. */
  lemma LineBefore(v: Sched, now: int, stop: nat, env: nat -> Burst) returns (w: Sched)
    requires Inv(v)
    ensures w == RunActive(WakeUp(v, now, stop), 100, env) && Inv(w)
    ensures At(v.lists, Avail) <= At(w.lists, Avail)
  {
    var u := WakeUp(v, now, stop);
    WakeUpSound(v, now, stop);
    WakeUpKeepsLine(v, now, stop);
    RunActiveServesInOrder(u, 100, env);
    RunActiveKeepsLine(u, 100, env);
    w := RunActive(u, 100, env);
  }

  lemma PlaceInLoop(w: Sched, n: nat, env: nat -> Burst, p: nat)
    requires Inv(w) && p < |At(w.lists, Avail)|
    ensures var id := At(w.lists, Avail)[p];
            if p < n then id in Served(w, n, env)
            else p - n < |At(RunAvail(w, n, env).lists, Avail)| && At(RunAvail(w, n, env).lists, Avail)[p - n] == id
  {
    var line := At(w.lists, Avail);
    if p < n {
      ServedInOrder(w, n, env);
      assert Served(w, n, env)[p] == line[p];
    } else {
      RunAvailServesInOrder(w, n, env);
      assert line[n..][p - n] == line[p];
    }
  }

  lemma PlaceAfterCreate(v: Sched, p: nat)
    requires Inv(v) && p < |At(v.lists, Avail)|
    ensures p < |At(Create(v).0.lists, Avail)| && At(Create(v).0.lists, Avail)[p] == At(v.lists, Avail)[p]
  {
    CreateSound(v);
  }

  lemma PlaceAfterPass(v: Sched, now: int, stop: nat, availLimit: nat, env: nat -> Burst, env': nat -> Burst, p: nat)
    requires Inv(v) && !v.terminal && p < |At(v.lists, Avail)|
    ensures var id, w := At(v.lists, Avail)[p], Pass(v, now, stop, availLimit, env, env');
            if p < availLimit then id in Served(RunActive(WakeUp(v, now, stop), 100, env), availLimit, env')
            else p - availLimit < |At(w.lists, Avail)| && At(w.lists, Avail)[p - availLimit] == id
  {
    var w := LineBefore(v, now, stop, env);
    PlaceInLoop(w, availLimit, env', p);
  }

  /** What one event does to the coroutine at place p of the available list. */
  lemma PlaceAfter(v: Sched, e: Event, p: nat)
    requires Inv(v) && p < |At(v.lists, Avail)| && (e.Looped? ==> !v.terminal)
    ensures var id, n := At(v.lists, Avail)[p], Turns(e);
            if p < n then e.Looped? && id in PassServes(v, e)
            else p - n < |At(Step(v, e).lists, Avail)| && At(Step(v, e).lists, Avail)[p - n] == id
  {
    match e {
      case Created => PlaceAfterCreate(v, p);
      case Looped(now, stop, availLimit, env, env') =>
        PlaceAfterPass(v, now, stop, availLimit, env, env', p);
      case _ =>
    }
  }

  /** How many available coroutines an event may serve. */
  function Turns(e: Event): nat {
    if e.Looped? then e.availLimit else 0
  }

  function AllTurns(es: seq<Event>): nat {
    if es == [] then 0 else Turns(es[0]) + AllTurns(es[1..])
  }

  /** No pass begins after the scheduler has been terminated. */
  predicate Running(v: Sched, es: seq<Event>)
    decreases |es|
  {
    es == [] || ((es[0].Looped? ==> !v.terminal) && Running(Step(v, es[0]), es[1..]))
  }

  predicate ServedIn(v: Sched, es: seq<Event>, id: nat)
    decreases |es|
  {
    es != [] && ((es[0].Looped? && id in PassServes(v, es[0])) || ServedIn(Step(v, es[0]), es[1..], id))
  }

  /** The wait of an available coroutine is bounded: behind p others it has been switched to when the
      passes have had more than p turns, and until then it has moved up by exactly as many places. */
  lemma {:induction false} WaitIsBounded(v: Sched, es: seq<Event>, p: nat)
    requires Inv(v) && Running(v, es) && p < |At(v.lists, Avail)|
    ensures var id, n := At(v.lists, Avail)[p], AllTurns(es);
            ServedIn(v, es, id) || (p >= n && p - n < |At(Replay(v, es).lists, Avail)| && At(Replay(v, es).lists, Avail)[p - n] == id)
    decreases |es|
  {
    if es != [] {
      PlaceAfter(v, es[0], p);
      EveryRunKeepsInv(v, [es[0]]);
      assert Replay(v, [es[0]]) == Step(v, es[0]);
      if p >= Turns(es[0]) {
        WaitIsBounded(Step(v, es[0]), es[1..], p - Turns(es[0]));
      }
    }
  }

  // ----- what a stale entry does -----

  /** A sleeper woken early by put() keeps its entry in the timeout multimap. */
  function WokenSleeper(v: Sched, id: nat, at: int, ms: int): Sched
    requires id in v.status
  {
    Wake(Put(Sleep(v, id, at, ms), id))
  }

  lemma WokenSleeperSound(v: Sched, id: nat, at: int, ms: int)
    requires Inv(v) && !v.terminal && Runnable(v, id)
    ensures var w := WokenSleeper(v, id, at, ms);
            && Inv(w) && !w.terminal
            && id in w.status && w.status[id] == Active
            && Alarm(at + if ms >= 0 then ms else -ms, id) in w.alarms
  {
    var u := Put(Sleep(v, id, at, ms), id);
    SleepKeepsInv(v, id, at, ms);
    InsertAlarmSorted(v.alarms, Alarm(at + if ms >= 0 then ms else -ms, id));
    assert Inv(u) && u.status[id] == Timeout;
    PutIsWoken(u, id);
  }

  lemma PutIsWoken(u: Sched, id: nat)
    requires Inv(u) && !u.terminal && id in u.queue
    requires u.status[id] == Inactive || u.status[id] == Timeout
    ensures var w := Wake(u);
            && Inv(w) && w == u.(lists := w.lists, status := w.status, queue := [])
            && id in w.status && w.status[id] == Active
  {
    WakeSound(u);
    WakeAllActiveSound(u.(queue := []), u.queue);
  }

  lemma DueIsWoken(v: Sched, id: nat, due: int)
    requires Inv(v) && !v.terminal
    requires id in v.status && (v.status[id] == Inactive || v.status[id] == Timeout)
    requires Alarm(due, id) in v.alarms
    ensures id in WakeByTimeout(v, due).status && WakeByTimeout(v, due).status[id] == Active
  {
    DrainAlarmsExact(v, due);
    assert Due(v.alarms, id, due);
  }

  /** If a coroutine with a leftover entry waits for somebody else's wake-up (yield(false), as a
      caller waiting for its reply does), the entry wakes it although nobody called put(). */
  lemma StaleEntryWakesWaiter(u: Sched, id: nat, due: int)
    requires Inv(u) && !u.terminal && Runnable(u, id) && Alarm(due, id) in u.alarms
    ensures var waiting := Yield(u, id, false);
            && Inv(waiting) && waiting.status[id] == Inactive
            && id !in waiting.yielded && waiting.queue == u.queue
            && id in WakeByTimeout(waiting, due).status && WakeByTimeout(waiting, due).status[id] == Active
  {
    YieldKeepsInv(u, id, false);
    DueIsWoken(Yield(u, id, false), id, due);
  }

  /** If it sleeps again, for longer, the leftover entry ends the new sleep before its deadline. */
  lemma StaleEntryCutsSleepShort(u: Sched, id: nat, due: int, at: int, ms: nat)
    requires Inv(u) && !u.terminal && Runnable(u, id) && Alarm(due, id) in u.alarms
    requires at + ms > due
    ensures var asleep := Sleep(u, id, at, ms);
            && Inv(asleep) && asleep.status[id] == Timeout && asleep.asleepUntil[id] > due
            && id in WakeByTimeout(asleep, due).status && WakeByTimeout(asleep, due).status[id] == Active
  {
    SleepKeepsInv(u, id, at, ms);
    InsertAlarmSorted(u.alarms, Alarm(at + ms, id));
    DueIsWoken(Sleep(u, id, at, ms), id, due);
  }

  // ----- every reachable state -----

  datatype Event =
    | Created
    | Woken(id: nat)
    | Terminated
    | Looped(now: int, stop: nat, availLimit: nat, env: nat -> Burst, env': nat -> Burst)

  function Empty(pool: nat): Sched {
    Sched(false, pool, 0, 0, 0, map[], map[], [], [], [], map[], {})
  }

  lemma EmptySound(pool: nat)
    ensures Inv(Empty(pool))
  {
  }

  /** A new scheduler after init(pool); init(0) is refused and leaves the default limit of 1000. */
  function Start(pool: nat): Sched {
    if pool == 0 then Empty(1000) else AddFree(Empty(pool), if pool <= 100 then pool else 100)
  }

  function Step(v: Sched, e: Event): Sched {
    match e
    case Created => Create(v).0
    case Woken(id) => if id in v.status then Put(v, id) else v
    case Terminated => Terminate(v)
    case Looped(now, stop, availLimit, env, env') => Pass(v, now, stop, availLimit, env, env')
  }

  function Replay(v: Sched, es: seq<Event>): Sched
    decreases |es|
  {
    if es == [] then v else Replay(Step(v, es[0]), es[1..])
  }

  lemma PassSound(v: Sched, now: int, stop: nat, availLimit: nat, env: nat -> Burst, env': nat -> Burst)
    requires Inv(v)
    ensures Inv(Pass(v, now, stop, availLimit, env, env'))
  {
    if !v.terminal {
      WakeUpSound(v, now, stop);
      RunActiveServesInOrder(WakeUp(v, now, stop), 100, env);
      RunAvailServesInOrder(RunActive(WakeUp(v, now, stop), 100, env), availLimit, env');
    }
  }

  lemma StartSound(pool: nat)
    ensures Inv(Start(pool)) && !Start(pool).terminal && Start(pool).usedSize == 0
    ensures Start(pool).poolSize == if pool == 0 then 1000 else pool
    ensures Start(pool).currentSize == if pool < 100 then pool else 100
  {
    EmptySound(if pool == 0 then 1000 else pool);
    if pool > 0 { AddFreeKeepsInv(Empty(pool), if pool <= 100 then pool else 100); }
  }

  /** Every state any run can reach keeps the invariant: the lists agree with the statuses and the
      counters, and no sleeper or self-yielder is lost. */
  lemma {:induction false} EveryRunKeepsInv(v: Sched, es: seq<Event>)
    requires Inv(v)
    ensures Inv(Replay(v, es))
    decreases |es|
  {
    if es != [] {
      match es[0] {
        case Created => CreateSound(v);
        case Woken(id) =>
        case Terminated =>
        case Looped(now, stop, availLimit, env, env') => PassSound(v, now, stop, availLimit, env, env');
      }
      EveryRunKeepsInv(Step(v, es[0]), es[1..]);
    }
  }

  lemma EveryReachableStateKeepsInv(pool: nat, es: seq<Event>)
    ensures Inv(Replay(Start(pool), es))
  {
    StartSound(pool);
    EveryRunKeepsInv(Start(pool), es);
  }
}
