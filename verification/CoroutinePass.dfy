/** What a pass of the scheduler's main loop does, said in the fields of the scheduler before it: whom the
    wake-ups wake and in what order, and who is switched to. */
module CoroutinePasses {
  import opened Basics
  import opened CoroutineModel

  // ----- the wake-ups -----

  /** The members of who, in the order in which ids first mentions them. */
  function Called(ids: seq<nat>, who: set<nat>): seq<nat> {
    if ids == [] then []
    else if ids[0] in who then [ids[0]] + Called(ids[1..], who - {ids[0]})
    else Called(ids[1..], who)
  }

  /** The coroutines the entries that are due name, entry by entry. */
  function DueIds(alarms: seq<Alarm>, now: int): seq<nat> {
    if alarms == [] then []
    else (if alarms[0].at <= now then [alarms[0].id] else []) + DueIds(alarms[1..], now)
  }

  /** The coroutines that wait, for whatever. */
  function Sleepers(status: map<nat, Status>): set<nat> {
    set i | i in status && (status[i] == Inactive || status[i] == Timeout)
  }

  /** Those that wait for somebody to wake them. */
  function Waiters(status: map<nat, Status>): set<nat> {
    set i | i in status && status[i] == Inactive
  }

  function Ids(s: seq<nat>): set<nat> {
    set i | i in s
  }

  lemma {:induction false} NoneDue(alarms: seq<Alarm>, now: int)
    requires forall a :: a in alarms ==> a.at > now
    ensures DueIds(alarms, now) == []
  {
    if alarms != [] {
      NoneDue(alarms[1..], now);
    }
  }

  lemma {:induction false} DueIdsAreDue(alarms: seq<Alarm>, now: int, id: nat)
    ensures id in DueIds(alarms, now) <==> Due(alarms, id, now)
  {
    if alarms != [] {
      DueIdsAreDue(alarms[1..], now, id);
      assert alarms == [alarms[0]] + alarms[1..];
      if Due(alarms, id, now) && !Due(alarms[1..], id, now) {
        var a :| a in alarms && a.id == id && a.at <= now;
        assert a == alarms[0];
      }
      if alarms[0].id == id && alarms[0].at <= now {
        assert alarms[0] in alarms;
      }
    }
  }

  lemma MovedOut(status: map<nat, Status>, id: nat, s: Status)
    requires s == Active || s == Avail
    ensures Sleepers(status[id := s]) == Sleepers(status) - {id}
    ensures Waiters(status[id := s]) == Waiters(status) - {id}
  {
  }

  lemma {:induction false} CalledActive(v: Sched, ids: seq<nat>)
    ensures var w := WakeAllActive(v, ids);
            At(w.lists, Active) == At(v.lists, Active) + Called(ids, Sleepers(v.status))
    decreases |ids|
  {
    if ids != [] {
      var id := ids[0];
      CalledActive(if id in v.status then MoveToActive(v, id) else v, ids[1..]);
      MovedOut(v.status, id, Active);
    }
  }

  lemma {:induction false} CalledAvail(v: Sched, ids: seq<nat>)
    ensures var w := WakeAllAvail(v, ids);
            At(w.lists, Avail) == At(v.lists, Avail) + Called(ids, Waiters(v.status))
    decreases |ids|
  {
    if ids != [] {
      var id := ids[0];
      CalledAvail(if id in v.status then MoveToAvail(v, id) else v, ids[1..]);
      MovedOut(v.status, id, Avail);
    }
  }

  lemma {:induction false} RungActive(v: Sched, now: int)
    requires Sorted(v.alarms)
    ensures At(DrainAlarms(v, now).lists, Active) == At(v.lists, Active) + Called(DueIds(v.alarms, now), Sleepers(v.status))
    decreases |v.alarms|
  {
    if v.alarms == [] || v.alarms[0].at > now {
      NoneDue(v.alarms, now);
    } else {
      MovedOut(v.status, v.alarms[0].id, Active);
      RungActive(DrainOne(v), now);
    }
  }

  /** What the wake-ups make of a coroutine, from whether an entry for it is due, whether it has asked for
      itself, and whether somebody has put it. */
  function StatusAfter(s: Status, due: bool, asked: bool, put: bool): Status {
    match s
    case Timeout => if due || put then Active else Timeout
    case Inactive => if due then Active else if asked then Avail else if put then Active else Inactive
    case _ => s
  }

  /** What they do to the statuses, and to the two lists of runnable coroutines. */
  ghost predicate Statuses(before: map<nat, Status>, after: map<nat, Status>, due: seq<nat>, need: seq<nat>, queue: seq<nat>) {
    && (forall i: nat :: i in after <==> i in before)
    && (forall i: nat :: i in before ==> after[i] == StatusAfter(before[i], i in due, i in need, i in queue))
  }

  function AvailAfter(avail: seq<nat>, status: map<nat, Status>, due: seq<nat>, need: seq<nat>): seq<nat> {
    avail + Called(need, Waiters(status) - Ids(due))
  }

  function ActiveAfter(active: seq<nat>, status: map<nat, Status>, due: seq<nat>, need: seq<nat>, queue: seq<nat>): seq<nat> {
    active + Called(due, Sleepers(status)) + Called(queue, Sleepers(status) - Ids(due) - Waiters(status) * Ids(need))
  }

  lemma AfterTimeout(v: Sched, now: int)
    requires Inv(v) && !v.terminal
    ensures var w, due := WakeByTimeout(v, now), DueIds(v.alarms, now);
            && Inv(w) && !w.terminal && w == v.(lists := w.lists, status := w.status, alarms := w.alarms)
            && (forall a :: a in w.alarms <==> a in v.alarms && a.at > now)
            && Statuses(v.status, w.status, due, [], [])
            && At(w.lists, Avail) == At(v.lists, Avail)
            && At(w.lists, Active) == At(v.lists, Active) + Called(due, Sleepers(v.status))
  {
    NoSleeperOverdue(v, now);
    DrainAlarmsExact(v, now);
    DrainKeepsLine(v, now);
    RungActive(v, now);
    forall i: nat | i in v.status ensures Due(v.alarms, i, now) <==> i in DueIds(v.alarms, now) {
      DueIdsAreDue(v.alarms, now, i);
    }
  }

  lemma AfterSelf(v: Sched)
    requires Inv(v) && !v.terminal
    ensures var w := WakeBySelf(v);
            && Inv(w) && w == v.(lists := w.lists, status := w.status, need := [])
            && Statuses(v.status, w.status, [], v.need, [])
            && At(w.lists, Avail) == At(v.lists, Avail) + Called(v.need, Waiters(v.status))
            && At(w.lists, Active) == At(v.lists, Active)
  {
    WakeBySelfSound(v);
    WakeAllAvailSound(v, v.need);
    CalledAvail(v, v.need);
  }

  lemma AfterWake(v: Sched)
    requires Inv(v) && !v.terminal
    ensures var w := Wake(v);
            && Inv(w) && w == v.(lists := w.lists, status := w.status, queue := [])
            && Statuses(v.status, w.status, [], [], v.queue)
            && At(w.lists, Avail) == At(v.lists, Avail)
            && At(w.lists, Active) == At(v.lists, Active) + Called(v.queue, Sleepers(v.status))
  {
    var u := v.(queue := []);
    WakeSound(v);
    WakeAllActiveSound(u, v.queue);
    WakeAllActiveKeepsLine(u, v.queue);
    CalledActive(u, v.queue);
  }

  lemma WhoIsLeft(status: map<nat, Status>, after: map<nat, Status>, due: seq<nat>, need: seq<nat>)
    requires Statuses(status, after, due, need, [])
    ensures Sleepers(after) == Sleepers(status) - Ids(due) - Waiters(status) * Ids(need)
    ensures need == [] ==> Waiters(after) == Waiters(status) - Ids(due)
  {
  }

  lemma ThenSelf(a: map<nat, Status>, b: map<nat, Status>, c: map<nat, Status>, due: seq<nat>, need: seq<nat>)
    requires Statuses(a, b, due, [], []) && Statuses(b, c, [], need, [])
    ensures Statuses(a, c, due, need, [])
  {
  }

  lemma ThenPut(a: map<nat, Status>, b: map<nat, Status>, c: map<nat, Status>, due: seq<nat>, need: seq<nat>, queue: seq<nat>)
    requires Statuses(a, b, due, need, []) && Statuses(b, c, [], [], queue)
    ensures Statuses(a, c, due, need, queue)
  {
  }

  lemma NobodyCalled(active: seq<nat>, status: map<nat, Status>, due: seq<nat>, need: seq<nat>)
    ensures ActiveAfter(active, status, due, need, []) == active + Called(due, Sleepers(status))
    ensures AvailAfter(active, status, due, []) == active
  {
  }

  /** What the wake-ups make of a scheduler of which need and queue are drained. */
  ghost predicate Awoken(v: Sched, w: Sched, now: int, need: seq<nat>, queue: seq<nat>) {
    var due := DueIds(v.alarms, now);
    && (forall a :: a in w.alarms <==> a in v.alarms && a.at > now)
    && Statuses(v.status, w.status, due, need, queue)
    && At(w.lists, Avail) == AvailAfter(At(v.lists, Avail), v.status, due, need)
    && At(w.lists, Active) == ActiveAfter(At(v.lists, Active), v.status, due, need, queue)
  }

  lemma TimeoutWakes(v: Sched, now: int)
    requires Inv(v) && !v.terminal
    ensures Awoken(v, WakeByTimeout(v, now), now, [], [])
  {
    AfterTimeout(v, now);
    NobodyCalled(At(v.lists, Active), v.status, DueIds(v.alarms, now), []);
    NobodyCalled(At(v.lists, Avail), v.status, DueIds(v.alarms, now), []);
  }

  lemma SelfWakes(v: Sched, u: Sched, now: int)
    requires Inv(u) && !u.terminal && Awoken(v, u, now, [], [])
    ensures Awoken(v, WakeBySelf(u), now, u.need, [])
  {
    var due := DueIds(v.alarms, now);
    AfterSelf(u);
    WhoIsLeft(v.status, u.status, due, []);
    ThenSelf(v.status, u.status, WakeBySelf(u).status, due, u.need);
    NobodyCalled(At(v.lists, Active), v.status, due, []);
    NobodyCalled(At(v.lists, Active), v.status, due, u.need);
    NobodyCalled(At(v.lists, Avail), v.status, due, []);
  }

  lemma PutWakes(v: Sched, u: Sched, now: int, need: seq<nat>)
    requires Inv(u) && !u.terminal && Awoken(v, u, now, need, [])
    ensures Awoken(v, Wake(u), now, need, u.queue)
  {
    var due := DueIds(v.alarms, now);
    AfterWake(u);
    WhoIsLeft(v.status, u.status, due, need);
    ThenPut(v.status, u.status, Wake(u).status, due, need, u.queue);
    NobodyCalled(At(v.lists, Active), v.status, due, need);
  }

  /** The wake-ups, exactly: every source is drained, alarms of those that are due and need and queue wholly,
      and each coroutine that waits is woken by the first source that names it. A terminate() between two of
      them keeps the later ones from doing anything. */
  lemma WakeUpExact(v: Sched, now: int, stop: nat)
    requires Inv(v) && !v.terminal
    ensures var w := WakeUp(v, now, stop);
            && w.need == (if stop == 1 then v.need else [])
            && w.queue == (if stop == 1 || stop == 2 then v.queue else [])
            && (w.terminal <==> stop == 1 || stop == 2)
            && Awoken(v, w, now, if stop == 1 then [] else v.need, if stop == 1 || stop == 2 then [] else v.queue)
  {
    AfterTimeout(v, now);
    TimeoutWakes(v, now);
    if stop != 1 {
      SelfThenPut(v, WakeByTimeout(v, now), now, stop);
    }
  }

  lemma SelfThenPut(v: Sched, u: Sched, now: int, stop: nat)
    requires Inv(u) && !u.terminal && Awoken(v, u, now, [], [])
    ensures var w := Wake(MayStop(WakeBySelf(u), stop == 2));
            && w.need == [] && w.queue == (if stop == 2 then u.queue else []) && (w.terminal <==> stop == 2)
            && Awoken(v, w, now, u.need, if stop == 2 then [] else u.queue)
  {
    AfterSelf(u);
    SelfWakes(v, u, now);
    if stop != 2 {
      AfterWake(WakeBySelf(u));
      PutWakes(v, WakeBySelf(u), now, u.need);
    }
  }

  // ----- who is switched to -----

  /** The coroutines the active loop switches to, in order. */
  function ServedActive(v: Sched, n: nat, env: nat -> Burst): seq<nat>
    decreases n
  {
    if n == 0 || At(v.lists, Active) == [] then []
    else
      var id := At(v.lists, Active)[0];
      [id] + ServedActive(Switch(v, id, env(n)), n - 1, env)
  }

  function First(s: seq<nat>, n: nat): seq<nat> {
    if n <= |s| then s[..n] else s
  }

  lemma {:induction false} ActiveServedInOrder(v: Sched, n: nat, env: nat -> Burst)
    requires Inv(v)
    ensures ServedActive(v, n, env) == First(At(v.lists, Active), n)
    decreases n
  {
    if n > 0 && At(v.lists, Active) != [] {
      var line := At(v.lists, Active);
      CountIn(line, line[0]);
      SwitchSound(v, line[0], env(n));
      ActiveServedInOrder(Switch(v, line[0], env(n)), n - 1, env);
    }
  }

  /** A pass switches to the first 100 of the coroutines that were active or have been woken by it, in the
      order in which they were, and leaves the others in that order. */
  lemma PassServesActive(v: Sched, now: int, stop: nat, availLimit: nat, env: nat -> Burst, env': nat -> Burst)
    requires Inv(v) && !v.terminal
    ensures var need, queue := if stop == 1 then [] else v.need, if stop == 1 || stop == 2 then [] else v.queue;
            var line := ActiveAfter(At(v.lists, Active), v.status, DueIds(v.alarms, now), need, queue);
            && ServedActive(WakeUp(v, now, stop), 100, env) == First(line, 100)
            && At(Pass(v, now, stop, availLimit, env, env').lists, Active) == if |line| > 100 then line[100..] else []
  {
    var w := WakeUp(v, now, stop);
    WakeUpExact(v, now, stop);
    WakeUpSound(v, now, stop);
    ActiveServedInOrder(w, 100, env);
    RunActiveServesInOrder(w, 100, env);
    RunAvailServesInOrder(RunActive(w, 100, env), availLimit, env');
  }

  lemma {:induction false} CalledMembers(ids: seq<nat>, who: set<nat>, x: nat)
    ensures x in Called(ids, who) <==> x in ids && x in who
    ensures |Called(ids, who)| <= |ids|
  {
    if ids != [] {
      assert ids == [ids[0]] + ids[1..];
      CalledMembers(ids[1..], if ids[0] in who then who - {ids[0]} else who, x);
    }
  }

  /** So a coroutine that waits, that has not asked for itself, and that somebody has put is switched to in the
      next pass, if no more than 100 can be runnable by then. */
  lemma PutIsServed(v: Sched, now: int, id: nat, env: nat -> Burst)
    requires Inv(v) && !v.terminal && id in v.queue && id !in v.need
    requires v.status[id] == Inactive || v.status[id] == Timeout
    requires |At(v.lists, Active)| + |DueIds(v.alarms, now)| + |v.queue| <= 100
    ensures id in ServedActive(WakeUp(v, now, 0), 100, env)
  {
    PassServesActive(v, now, 0, 0, env, env);
    PutIsActive(At(v.lists, Active), v.status, DueIds(v.alarms, now), v.need, v.queue, id);
  }

  lemma PutIsActive(active: seq<nat>, status: map<nat, Status>, due: seq<nat>, need: seq<nat>, queue: seq<nat>, id: nat)
    requires id in Sleepers(status) && id !in need && id in queue
    ensures var line := ActiveAfter(active, status, due, need, queue);
            id in line && |line| <= |active| + |due| + |queue|
  {
    CalledMembers(due, Sleepers(status), id);
    CalledMembers(queue, Sleepers(status) - Ids(due) - Waiters(status) * Ids(need), id);
  }

  // ----- what a coroutine can rely on -----

  /** A coroutine that yields and asks to be woken is runnable after the next wake-ups. */
  lemma YieldTrueComesBack(v: Sched, id: nat, now: int)
    requires Inv(v) && !v.terminal && Runnable(v, id)
    ensures id in Yield(v, id, true).yielded
    ensures var w := WakeUp(Yield(v, id, true), now, 0);
            id in w.status && w.status[id] == if id in DueIds(v.alarms, now) then Active else Avail
  {
    YieldKeepsInv(v, id, true);
    var u := Yield(v, id, true);
    assert id in u.need && u.status[id] == Inactive && u.alarms == v.alarms;
    WakeUpExact(u, now, 0);
  }

  /** One that yields and does not waits until it is put, or a leftover entry is due, or an earlier request of
      its own has not been served yet. */
  lemma YieldFalseWaits(v: Sched, id: nat, now: int)
    requires Inv(v) && !v.terminal && Runnable(v, id)
    ensures id !in Yield(v, id, false).yielded
    ensures var w := WakeUp(Yield(v, id, false), now, 0);
            && id in w.status
            && (w.status[id] == Inactive <==> id !in DueIds(v.alarms, now) && id !in v.need && id !in v.queue)
  {
    YieldKeepsInv(v, id, false);
    var u := Yield(v, id, false);
    assert u.status[id] == Inactive && u.alarms == v.alarms && u.need == v.need && u.queue == v.queue;
    WakeUpExact(u, now, 0);
  }

  /** One that sleeps for ms milliseconds from at on sleeps exactly until then, unless it is put or a leftover
      entry is due. */
  lemma SleepLasts(v: Sched, id: nat, at: int, ms: nat, now: int)
    requires Inv(v) && !v.terminal && Runnable(v, id)
    ensures var w := WakeUp(Sleep(v, id, at, ms), now, 0);
            && id in w.status
            && (w.status[id] == Timeout <==> now < at + ms && id !in DueIds(v.alarms, now) && id !in v.queue)
            && (w.status[id] != Timeout ==> w.status[id] == Active)
  {
    SleepKeepsInv(v, id, at, ms);
    var u := Sleep(v, id, at, ms);
    assert u.status[id] == Timeout && u.queue == v.queue && !u.terminal;
    assert u.alarms == InsertAlarm(v.alarms, Alarm(at + ms, id));
    SleeperAfter(u, id, now);
    OneMoreAlarm(v.alarms, Alarm(at + ms, id), now);
  }

  lemma SleeperAfter(u: Sched, id: nat, now: int)
    requires Inv(u) && !u.terminal && id in u.status && u.status[id] == Timeout
    ensures var w := WakeUp(u, now, 0);
            && id in w.status
            && w.status[id] == if id in DueIds(u.alarms, now) || id in u.queue then Active else Timeout
  {
    WakeUpExact(u, now, 0);
  }

  lemma {:induction false} OneMoreAlarm(alarms: seq<Alarm>, a: Alarm, now: int)
    ensures a.id in DueIds(InsertAlarm(alarms, a), now) <==> a.at <= now || a.id in DueIds(alarms, now)
  {
    if alarms == [] || alarms[0].at > a.at {
      assert ([a] + alarms)[1..] == alarms;
    } else {
      var rest := InsertAlarm(alarms[1..], a);
      assert ([alarms[0]] + rest)[1..] == rest;
      OneMoreAlarm(alarms[1..], a, now);
    }
  }

  /** One that ends is free, behind the others that are. */
  lemma FinishFrees(v: Sched, id: nat)
    requires Inv(v) && Runnable(v, id)
    ensures v.usedSize > 0
    ensures var w := Finish(v, id);
            && w.usedSize == v.usedSize - 1 && At(w.lists, Free) == At(v.lists, Free) + [id]
            && w.status == v.status[id := Free]
  {
    FinishKeepsInv(v, id);
  }

  function Creations(acts: seq<Act>): nat {
    if acts == [] then 0 else (if acts[0].Creates? then 1 else 0) + Creations(acts[1..])
  }

  /** The ids put until the scheduler is terminated. */
  function PutIds(acts: seq<Act>): seq<nat> {
    if acts == [] || acts[0].Terminates? then []
    else (if acts[0].Puts? then [acts[0].id] else []) + PutIds(acts[1..])
  }

  /** While it runs, each coroutine it creates is in use as long as there is room, and everybody it puts is
      queued, in order, until somebody terminates the scheduler. */
  lemma {:induction false} ActsAreDone(v: Sched, acts: seq<Act>)
    requires Inv(v) && forall a :: a in acts && a.Puts? ==> a.id in v.status
    ensures var w, n := DoActs(v, acts), v.usedSize + Creations(acts);
            && v.usedSize <= v.poolSize && w.usedSize == (if n < v.poolSize then n else v.poolSize)
            && |At(w.lists, Avail)| == |At(v.lists, Avail)| + w.usedSize - v.usedSize
            && w.queue == v.queue + (if v.terminal then [] else PutIds(acts))
            && (w.terminal <==> v.terminal || Terminates in acts)
            && w.need == v.need && w.alarms == v.alarms
    decreases |acts|
  {
    if acts != [] {
      var a, rest := acts[0], acts[1..];
      assert acts == [a] + rest;
      OneActDone(v, a);
      ActsAreDone(DoAct(v, a), rest);
      QueueGrows(v.queue, a, rest);
    }
  }

  lemma QueueGrows(queue: seq<nat>, a: Act, rest: seq<Act>)
    ensures (queue + if a.Puts? then [a.id] else []) + (if a.Terminates? then [] else PutIds(rest)) == queue + PutIds([a] + rest)
  {
    assert ([a] + rest)[1..] == rest;
  }

  lemma OneActDone(v: Sched, a: Act)
    requires Inv(v) && (a.Puts? ==> a.id in v.status)
    ensures var w := DoAct(v, a);
            && Inv(w) && w.poolSize == v.poolSize && w.need == v.need && w.alarms == v.alarms
            && (forall i: nat :: i in v.status ==> i in w.status)
            && w.usedSize == (if a.Creates? && v.usedSize != v.poolSize then v.usedSize + 1 else v.usedSize)
            && |At(w.lists, Avail)| == |At(v.lists, Avail)| + w.usedSize - v.usedSize
            && w.queue == v.queue + (if a.Puts? && !v.terminal then [a.id] else [])
            && (w.terminal <==> v.terminal || a.Terminates?)
  {
    DoActSound(v, a);
    if a.Creates? {
      CreateSound(v);
      ToppedSound(v);
    }
  }

  /** A switch does what its acts do, and then what its ending says. */
  lemma SwitchIsDone(v: Sched, id: nat, b: Burst)
    requires Inv(v) && Runnable(v, id) && forall a :: a in b.acts && a.Puts? ==> a.id in v.status
    ensures var w, over := Switch(v, id, b), v.terminal || Terminates in b.acts;
            && w.queue == v.queue + (if v.terminal then [] else PutIds(b.acts)) && (w.terminal <==> over)
            && id in w.status
            && match b.ending
               case Yields(flag) =>
                 w.status[id] == Inactive && w.need == v.need + (if flag && !over then [id] else []) && w.alarms == v.alarms
               case Sleeps(at, ms) =>
                 && w.status[id] == Timeout && w.need == v.need
                 && w.alarms == InsertAlarm(v.alarms, Alarm(at + if ms >= 0 then ms else -ms, id))
               case Finishes => w.status[id] == Free && w.need == v.need && w.alarms == v.alarms
  {
    ActsAreDone(v, b.acts);
    DoActsSound(v, b.acts);
    EndIsDone(DoActs(v, b.acts), id, b.ending);
  }

  lemma EndIsDone(u: Sched, id: nat, e: Ending)
    requires Inv(u) && Runnable(u, id)
    ensures var w := End(u, id, e);
            && w.queue == u.queue && w.terminal == u.terminal && id in w.status
            && match e
               case Yields(flag) =>
                 w.status[id] == Inactive && w.need == u.need + (if flag && !u.terminal then [id] else []) && w.alarms == u.alarms
               case Sleeps(at, ms) =>
                 && w.status[id] == Timeout && w.need == u.need
                 && w.alarms == InsertAlarm(u.alarms, Alarm(at + if ms >= 0 then ms else -ms, id))
               case Finishes => w.status[id] == Free && w.need == u.need && w.alarms == u.alarms && w.usedSize == u.usedSize - 1
  {
    InUse(u, id);
  }

  /** After terminate() nobody is switched to and nobody is woken any more, whatever happens. */
  lemma {:induction false} TerminatedForGood(v: Sched, es: seq<Event>)
    requires Inv(v) && v.terminal
    ensures var w := Replay(v, es);
            && w.terminal && w.queue == v.queue && w.need == v.need && w.alarms == v.alarms && CarriesOver(v, w)
    decreases |es|
  {
    if es != [] {
      var w := Step(v, es[0]);
      if es[0].Created? {
        CreateSound(v);
        ToppedSound(v);
      }
      TerminatedForGood(w, es[1..]);
      CarriesOnOver(v, w, Replay(w, es[1..]));
    }
  }

  /** Who goes to sleep is behind all that are due no later, so that of two that are due at the same time the one
      that went to sleep first is woken first. */
  lemma {:induction false} LastOfItsTime(alarms: seq<Alarm>, a: Alarm)
    requires Sorted(alarms)
    ensures DueIds(InsertAlarm(alarms, a), a.at) == DueIds(alarms, a.at) + [a.id]
  {
    if alarms == [] || alarms[0].at > a.at {
      NoneDue(alarms, a.at);
      assert ([a] + alarms)[1..] == alarms;
    } else {
      var rest := InsertAlarm(alarms[1..], a);
      assert ([alarms[0]] + rest)[1..] == rest;
      LastOfItsTime(alarms[1..], a);
    }
  }

  /** From outside, too: a put is queued, a creation counts, and terminate() is final. */
  lemma OutsideActsAreDone(v: Sched, id: nat)
    requires Inv(v)
    ensures id in v.status && !v.terminal ==> Step(v, Woken(id)) == v.(queue := v.queue + [id])
    ensures Step(v, Created).usedSize == if v.usedSize < v.poolSize then v.usedSize + 1 else v.usedSize
    ensures Step(v, Terminated) == v.(terminal := true)
  {
    ToppedSound(v);
    CreateSound(v);
  }
}
