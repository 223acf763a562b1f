/** The circuit breaker of AdapterProxy: counters and times that stand for a history of call results,
    and the two rules by which it takes a node out; and what calls, connections and checks make of them
    over a run. */
module Breakers {
  import opened Basics
  import opened Sockets

  datatype Info = Info(minTimeoutInvoke: nat, checkTimeoutInterval: nat, frequenceFailInvoke: nat,
                       minFrequenceFailTime: nat, radio: real, tryTimeInterval: nat, maxConnectExc: int)

  /** A counted result of a call. */
  datatype Result = Result(at: int, fail: bool)

  /** How many results there are since the last success. */
  function Streak(rs: seq<Result>): (n: nat)
    ensures n <= |rs|
  {
    if rs == [] || !rs[|rs| - 1].fail then 0 else 1 + Streak(rs[..|rs| - 1])
  }

  function Fails(rs: seq<Result>): (n: nat)
    ensures n <= |rs|
  {
    if rs == [] then 0 else Fails(rs[..|rs| - 1]) + if rs[|rs| - 1].fail then 1 else 0
  }

  lemma {:induction false} StreakMeans(rs: seq<Result>, n: nat)
    ensures Streak(rs) >= n <==> n <= |rs| && forall k :: |rs| - n <= k < |rs| ==> rs[k].fail
  {
    if rs != [] && n > 0 {
      StreakMeans(rs[..|rs| - 1], n - 1);
    }
  }

  /** The rule of consecutive failures, on the results up to and including the last. */
  predicate FrequenceTrips(info: Info, rs: seq<Result>, now: int) {
    var n := Streak(rs);
    n > 0 && n >= info.frequenceFailInvoke && now >= rs[|rs| - n].at + info.minFrequenceFailTime
  }

  /** The rule of the failure ratio, on the results of a window that has run out. */
  predicate RadioTrips(info: Info, window: seq<Result>) {
    && window != [] && window[|window| - 1].fail
    && Fails(window) >= info.minTimeoutInvoke
    && Fails(window) as real >= info.radio * |window| as real
  }

  /** Taken out by the first rule means: at least frequenceFailInvoke failures, and no success, for at
      least minFrequenceFailTime. */
  lemma FrequenceMeans(info: Info, rs: seq<Result>, now: int)
    ensures FrequenceTrips(info, rs, now) <==>
            exists i: nat :: i < |rs| && i <= |rs| - info.frequenceFailInvoke
                             && rs[i].at + info.minFrequenceFailTime <= now
                             && (forall k :: i <= k < |rs| ==> rs[k].fail) && (i > 0 ==> !rs[i - 1].fail)
  {
    var n := Streak(rs);
    StreakMeans(rs, n);
    StreakMeans(rs, n + 1);
    if FrequenceTrips(info, rs, now) {
      var i: nat := |rs| - n;
      assert rs[i].at + info.minFrequenceFailTime <= now;
      assert i > 0 ==> !rs[i - 1].fail;
    }
    if i: nat :| i < |rs| && i <= |rs| - info.frequenceFailInvoke && rs[i].at + info.minFrequenceFailTime <= now
                 && (forall k :: i <= k < |rs| ==> rs[k].fail) && (i > 0 ==> !rs[i - 1].fail) {
      StreakMeans(rs, |rs| - i);
      StreakMeans(rs, |rs| - i + 1);
      assert n == |rs| - i;
    }
  }

  /** The window is the end of the history. */
  ghost predicate EndsWith(rs: seq<Result>, window: seq<Result>) {
    |window| <= |rs| && rs[|rs| - |window|..] == window
  }

  /** The counters are those of the history: the calls and failures of the present window, and the
      failures since the last success. */
  ghost predicate Agree(info: Info, rs: seq<Result>, window: seq<Result>, total: nat, timeouts: nat, streak: nat, due: int) {
    && EndsWith(rs, window)
    && total == |window| && timeouts == Fails(window) && streak == Streak(rs)
    && (streak > 0 ==> due == rs[|rs| - streak].at + info.minFrequenceFailTime)
  }

  lemma CountsGrow(rs: seq<Result>, r: Result)
    ensures Streak(rs + [r]) == if r.fail then Streak(rs) + 1 else 0
    ensures Fails(rs + [r]) == Fails(rs) + if r.fail then 1 else 0
  {
    assert (rs + [r])[..|rs|] == rs;
  }

  lemma FirstOfStreak(rs: seq<Result>, r: Result)
    ensures var n := Streak(rs); (rs + [r])[|rs| - n] == if n == 0 then r else rs[|rs| - n]
  {
  }

  lemma EndsWithMore(rs: seq<Result>, window: seq<Result>, r: Result)
    requires EndsWith(rs, window)
    ensures EndsWith(rs + [r], window + [r]) && EndsWith(rs + [r], [r])
  {
  }

  lemma AgreeSuccess(info: Info, rs: seq<Result>, window: seq<Result>, total: nat, timeouts: nat, streak: nat, due: int, now: int)
    requires Agree(info, rs, window, total, timeouts, streak, due)
    ensures var r := Result(now, false);
            && Agree(info, rs + [r], window + [r], total + 1, timeouts, 0, due)
            && Agree(info, rs + [r], [r], 1, 0, 0, due)
            && !FrequenceTrips(info, rs + [r], now)
  {
    var r := Result(now, false);
    EndsWithMore(rs, window, r);
    CountsGrow(rs, r);
    CountsGrow(window, r);
    CountsGrow([], r);
    assert [] + [r] == [r];
  }

  lemma AgreeFailure(info: Info, rs: seq<Result>, window: seq<Result>, total: nat, timeouts: nat, streak: nat, due: int, now: int)
    requires Agree(info, rs, window, total, timeouts, streak, due)
    ensures var r, due' := Result(now, true), if streak == 0 then now + info.minFrequenceFailTime else due;
            && Agree(info, rs + [r], window + [r], total + 1, timeouts + 1, streak + 1, due')
            && (FrequenceTrips(info, rs + [r], now) <==> streak + 1 >= info.frequenceFailInvoke && now >= due')
  {
    var r := Result(now, true);
    EndsWithMore(rs, window, r);
    CountsGrow(rs, r);
    CountsGrow(window, r);
    FirstOfStreak(rs, r);
  }

  lemma AgreeWindow(info: Info, rs: seq<Result>, window: seq<Result>, total: nat, timeouts: nat, streak: nat, due: int)
    requires Agree(info, rs, window, total, timeouts, streak, due)
    ensures timeouts <= total
    ensures RadioTrips(info, window) <==>
              && window != [] && window[|window| - 1].fail
              && timeouts >= info.minTimeoutInvoke && timeouts as real >= info.radio * total as real
    ensures Agree(info, rs, [], 0, 0, streak, due)
    ensures window != [] ==> rs != [] && window[|window| - 1] == rs[|rs| - 1]
  {
  }

  // ----- the breaker on values -----

  datatype Health = Health(activeStatus: bool, totalInvoke: nat, timeoutInvoke: nat, nextFinishInvokeTime: int,
                           frequenceFailInvoke: nat, frequenceFailTime: int, nextRetryTime: int,
                           connTimeout: bool, connExc: bool, connExcCnt: nat)

  /** What an attempt to connect comes to. */
  datatype Attempt = Throws | Starts | Succeeds

  /** setInactive(). */
  function Out(info: Info, h: Health, now: int): Health {
    h.(activeStatus := false, nextRetryTime := now + info.tryTimeInterval)
  }

  /** The counters' form of the rule of consecutive failures. */
  predicate Frequent(info: Info, h: Health, now: int) {
    h.frequenceFailInvoke > 0 && h.frequenceFailInvoke >= info.frequenceFailInvoke && now >= h.frequenceFailTime
  }

  /** And of the failure ratio, at the end of a window. */
  predicate Radio(info: Info, h: Health, fail: bool, now: int) {
    && now > h.nextFinishInvokeTime && fail
    && h.timeoutInvoke >= info.minTimeoutInvoke && h.timeoutInvoke as real >= info.radio * h.totalInvoke as real
  }

  function Counted(info: Info, h: Health, fail: bool, now: int): Health {
    if fail then
      h.(totalInvoke := h.totalInvoke + 1, timeoutInvoke := h.timeoutInvoke + 1,
         frequenceFailInvoke := h.frequenceFailInvoke + 1,
         frequenceFailTime := if h.frequenceFailInvoke == 0 then now + info.minFrequenceFailTime else h.frequenceFailTime)
    else h.(totalInvoke := h.totalInvoke + 1, frequenceFailInvoke := 0)
  }

  function Recovered(info: Info, h: Health, now: int): Health {
    h.(activeStatus := true, frequenceFailInvoke := 0, nextFinishInvokeTime := now + info.checkTimeoutInterval,
       totalInvoke := 1, timeoutInvoke := 0, connTimeout := false, connExc := false)
  }

  function WindowEnded(info: Info, h: Health, fail: bool, now: int): Health {
    var next := h.(nextFinishInvokeTime := now + info.checkTimeoutInterval);
    if Radio(info, h, fail, now) then Out(info, next, now) else next.(totalInvoke := 0, timeoutInvoke := 0)
  }

  function Finished(info: Info, h: Health, fail: bool, now: int): Health {
    if !h.activeStatus then if fail then h else Recovered(info, h, now)
    else
      var c := Counted(info, h, fail, now);
      if Frequent(info, c, now) then Out(info, c, now)
      else if now > c.nextFinishInvokeTime then WindowEnded(info, c, fail, now)
      else c
  }

  function ConTimeoutSet(info: Info, h: Health, conTimeout: bool, now: int): Health {
    var c := h.(connTimeout := conTimeout);
    if conTimeout && !h.connTimeout then Out(info, c, now) else c
  }

  function ConnExcAdded(info: Info, h: Health, exc: bool, now: int): Health {
    if !exc then h.(connExc := false, connExcCnt := 0, activeStatus := true)
    else if h.connExc then h
    else
      var c := h.(connExcCnt := h.connExcCnt + 1);
      if c.connExcCnt >= info.maxConnectExc then Out(info, c, now).(connExc := true) else c
  }

  function Reconnected(info: Info, h: Health, attempt: Attempt, now: int): Health {
    match attempt
    case Throws => h.(activeStatus := false)
    case Starts => h
    case Succeeds => ConnExcAdded(info, ConTimeoutSet(info, h, false, now), false, now)
  }

  /** What checkActive() is called on: late says that a connection under way has timed out, attempt what
      connecting comes to, should it come to that. */
  datatype Asked = Asked(forceConnect: bool, at: int, link: Link, late: bool, attempt: Attempt)

  datatype Answer = Answer(health: Health, link: Link, ok: bool)

  predicate Late(q: Asked) {
    q.link.Connecting? && q.late
  }

  /** First a connection under way is given up if it is late. */
  function GivenUp(info: Info, h: Health, q: Asked): Health {
    if Late(q) then ConTimeoutSet(info, h, true, q.at) else h
  }

  function LinkAfter(attempt: Attempt): Link {
    match attempt case Throws => Unconnected case Starts => Connecting case Succeeds => Connected
  }

  function RetryFrom(info: Info, h: Health, now: int): Health {
    h.(nextRetryTime := now + info.tryTimeInterval)
  }

  /** Without force, an inactive node is tried once in a retry interval. */
  function Tried(info: Info, h: Health, q: Asked, link: Link): Answer {
    if !h.activeStatus && q.at < h.nextRetryTime then Answer(h, link, false)
    else
      var g := if h.activeStatus then h else RetryFrom(info, h, q.at);
      if link != Unconnected then Answer(g, link, link == Connected)
      else Answer(Reconnected(info, g, q.attempt, q.at), LinkAfter(q.attempt), q.attempt == Succeeds)
  }

  function Forced(info: Info, h: Health, q: Asked, link: Link): Answer {
    if link != Unconnected then Answer(h, link, true)
    else Answer(Reconnected(info, RetryFrom(info, h, q.at), q.attempt, q.at), LinkAfter(q.attempt), q.attempt != Throws)
  }

  function Checked(info: Info, h: Health, q: Asked): (r: Answer)
    ensures q.forceConnect ==> r.ok == (r.link != Unconnected)
    ensures !q.forceConnect ==>
              var g, link := GivenUp(info, h, q), if Late(q) then Unconnected else q.link;
              r.ok <==> (g.activeStatus || q.at >= g.nextRetryTime)
                        && (link == Connected || (link == Unconnected && q.attempt == Succeeds))
    ensures !q.forceConnect && r.ok ==> r.link == Connected
    ensures !q.forceConnect && h.activeStatus && q.link == Connected ==> r == Answer(h, Connected, true)
  {
    var g, link := GivenUp(info, h, q), if Late(q) then Unconnected else q.link;
    if q.forceConnect then Forced(info, g, q, link) else Tried(info, g, q, link)
  }

  // ----- the breaker over runs -----

  datatype Event =
    | Call(fail: bool, at: int)
    | ConTimeout(conTimeout: bool, at: int)
    | ConnExc(exc: bool, at: int)
    | Reconnect(attempt: Attempt, at: int)
    | Check(asked: Asked)

  function Happens(info: Info, h: Health, e: Event): Health {
    match e
    case Call(fail, at) => Finished(info, h, fail, at)
    case ConTimeout(b, at) => ConTimeoutSet(info, h, b, at)
    case ConnExc(exc, at) => ConnExcAdded(info, h, exc, at)
    case Reconnect(attempt, at) => Reconnected(info, h, attempt, at)
    case Check(asked) => Checked(info, h, asked).health
  }

  function AfterAll(info: Info, h: Health, events: seq<Event>): Health {
    if events == [] then h else Happens(info, AfterAll(info, h, events[..|events| - 1]), events[|events| - 1])
  }

  predicate NoSuccess(events: seq<Event>) {
    forall k :: 0 <= k < |events| ==> events[k].Call? ==> events[k].fail
  }

  lemma CheckedFrequent(info: Info, h: Health, now: int, q: Asked)
    requires Frequent(info, h, now)
    ensures Frequent(info, Checked(info, h, q).health, now) && Checked(info, h, q).health.frequenceFailTime == h.frequenceFailTime
  {
  }

  lemma CallFrequent(info: Info, h: Health, now: int, at: int)
    requires Frequent(info, h, now)
    ensures Frequent(info, Finished(info, h, true, at), now) && Finished(info, h, true, at).frequenceFailTime == h.frequenceFailTime
  {
  }

  lemma NextFrequent(info: Info, h: Health, now: int, e: Event)
    requires Frequent(info, h, now) && (e.Call? ==> e.fail)
    ensures Frequent(info, Happens(info, h, e), now) && Happens(info, h, e).frequenceFailTime == h.frequenceFailTime
  {
    match e {
      case Call(_, at) => CallFrequent(info, h, now, at);
      case Check(q) => CheckedFrequent(info, h, now, q);
      case _ =>
    }
  }

  /** Until a call succeeds, the streak of failures outlives all else: connections that succeed, retries,
      and the ends of windows. */
  lemma {:induction false} StaysFrequent(info: Info, h: Health, now: int, events: seq<Event>)
    requires Frequent(info, h, now) && NoSuccess(events)
    ensures Frequent(info, AfterAll(info, h, events), now) && AfterAll(info, h, events).frequenceFailTime == h.frequenceFailTime
  {
    if events != [] {
      var init, e := events[..|events| - 1], events[|events| - 1];
      StaysFrequent(info, h, now, init);
      NextFrequent(info, AfterAll(info, h, init), now, e);
    }
  }

  /** When a failure takes an active node out: by the first rule, or at the end of a window by the second. */
  lemma FailureTakesOutIff(info: Info, h: Health, now: int)
    requires h.activeStatus
    ensures !Finished(info, h, true, now).activeStatus <==>
              || (&& h.frequenceFailInvoke + 1 >= info.frequenceFailInvoke
                  && now >= if h.frequenceFailInvoke == 0 then now + info.minFrequenceFailTime else h.frequenceFailTime)
              || (&& now > h.nextFinishInvokeTime && h.timeoutInvoke + 1 >= info.minTimeoutInvoke
                  && (h.timeoutInvoke + 1) as real >= info.radio * (h.totalInvoke + 1) as real)
  {
    var c := Counted(info, h, true, now);
    assert c.activeStatus;
  }

  /** After a node has been taken out by the first rule, a connection makes it active whatever has happened
      since; but as long as no call has succeeded, its next failure takes it out again, unless it comes before
      the time at which the first rule could hold at all, and the second rule does not take it out either. */
  lemma OneMoreFailure(info: Info, h: Health, now: int, events: seq<Event>, at: int, later: int)
    requires h.activeStatus && Frequent(info, Counted(info, h, true, now), now) && NoSuccess(events)
    ensures var out := Finished(info, h, true, now);
            var back := AfterAll(info, out, events + [ConnExc(false, at)]);
            && !out.activeStatus && back.activeStatus && out.frequenceFailTime <= now
            && (!Finished(info, back, true, later).activeStatus <==>
                later >= out.frequenceFailTime || Radio(info, Counted(info, back, true, later), true, later))
  {
    var out, more := Finished(info, h, true, now), events + [ConnExc(false, at)];
    StaysFrequent(info, out, now, more);
    FailureTakesOutIff(info, AfterAll(info, out, more), later);
  }

  /** Neither a call nor a connection succeeds. */
  predicate Works(e: Event) {
    match e
    case Call(fail, _) => !fail
    case ConTimeout(_, _) => false
    case ConnExc(exc, _) => !exc
    case Reconnect(attempt, _) => attempt == Succeeds
    case Check(q) => q.attempt == Succeeds
  }

  predicate NothingWorks(events: seq<Event>) {
    forall k :: 0 <= k < |events| ==> !Works(events[k])
  }

  function FailedConnections(events: seq<Event>): nat {
    if events == [] then 0
    else FailedConnections(events[..|events| - 1]) + if events[|events| - 1].ConnExc? then 1 else 0
  }

  /** What n failed connections leave behind of a node that was like was: they are counted until there are
      maxConnectExc of them, with those counted before, and then take it out. */
  predicate Refused(info: Info, was: Health, h: Health, n: nat) {
    var c := was.connExcCnt;
    && (h.connExc <==> was.connExc || (n > 0 && c + n >= info.maxConnectExc))
    && (h.connExc && !was.connExc ==> !h.activeStatus)
    && h.connExcCnt == if was.connExc then c else if !h.connExc then c + n
                       else if c + 1 >= info.maxConnectExc then c + 1 else info.maxConnectExc
  }

  lemma NextRefused(info: Info, was: Health, h: Health, n: nat, e: Event)
    requires Refused(info, was, h, n) && !Works(e)
    ensures Refused(info, was, Happens(info, h, e), if e.ConnExc? then n + 1 else n)
  {
    match e {
      case Check(q) => CheckedRefused(info, was, h, n, q);
      case _ =>
    }
  }

  lemma CheckedRefused(info: Info, was: Health, h: Health, n: nat, q: Asked)
    requires Refused(info, was, h, n) && q.attempt != Succeeds
    ensures Refused(info, was, Checked(info, h, q).health, n)
  {
  }

  /** While nothing works, the node is taken out by its failed connections exactly when there has been one
      and they are maxConnectExc with those counted before; from then on they are not counted. A call that
      succeeds while the node is out does not reset that count, so it may start anywhere. */
  lemma {:induction false} ConnectionsTakeOutIff(info: Info, h: Health, events: seq<Event>)
    requires NothingWorks(events)
    ensures Refused(info, h, AfterAll(info, h, events), FailedConnections(events))
  {
    if events != [] {
      var init, e := events[..|events| - 1], events[|events| - 1];
      ConnectionsTakeOutIff(info, h, init);
      NextRefused(info, h, AfterAll(info, h, init), FailedConnections(init), e);
    }
  }

  // ----- one offer in a retry interval -----

  function At(e: Event): int {
    if e.Check? then e.asked.at else e.at
  }

  predicate Waits(h: Health, until: int) {
    !h.activeStatus && h.nextRetryTime >= until
  }

  lemma CheckedWaits(info: Info, h: Health, until: int, q: Asked)
    requires Waits(h, until) && q.attempt != Succeeds && q.at + info.tryTimeInterval >= until
    ensures Waits(Checked(info, h, q).health, until)
  {
  }

  lemma NextWaits(info: Info, h: Health, until: int, e: Event)
    requires Waits(h, until) && !Works(e) && At(e) + info.tryTimeInterval >= until
    ensures Waits(Happens(info, h, e), until)
  {
    match e {
      case Check(q) => CheckedWaits(info, h, until, q);
      case _ =>
    }
  }

  lemma {:induction false} StaysWaiting(info: Info, h: Health, until: int, events: seq<Event>)
    requires Waits(h, until) && NothingWorks(events)
    requires forall k :: 0 <= k < |events| ==> At(events[k]) + info.tryTimeInterval >= until
    ensures Waits(AfterAll(info, h, events), until)
  {
    if events != [] {
      var init, e := events[..|events| - 1], events[|events| - 1];
      StaysWaiting(info, h, until, init);
      NextWaits(info, AfterAll(info, h, init), until, e);
    }
  }

  /** A node that is out is offered, as a trial, at most once in a retry interval, whatever happens in
      between, as long as nothing works. */
  lemma OffersApart(info: Info, h: Health, q: Asked, events: seq<Event>, r: Asked)
    requires !h.activeStatus && !q.forceConnect && q.attempt != Succeeds && Checked(info, h, q).ok
    requires NothingWorks(events) && q.at <= r.at && forall k :: 0 <= k < |events| ==> q.at <= At(events[k])
    requires !r.forceConnect && Checked(info, AfterAll(info, Checked(info, h, q).health, events), r).ok
    ensures r.at >= q.at + info.tryTimeInterval
  {
    var until := q.at + info.tryTimeInterval;
    StaysWaiting(info, Checked(info, h, q).health, until, events);
  }

  /** A connection attempt that throws makes the node inactive without setting a retry time. */
  predicate AttemptThrows(e: Event) {
    (e.Reconnect? && e.attempt == Throws) || (e.Check? && e.asked.attempt == Throws)
  }

  lemma CheckTakesOut(info: Info, h: Health, q: Asked)
    requires h.activeStatus && !Checked(info, h, q).health.activeStatus && q.attempt != Throws
    ensures Waits(Checked(info, h, q).health, q.at + info.tryTimeInterval)
  {
  }

  lemma TakenOutWaits(info: Info, h: Health, e: Event)
    requires h.activeStatus && !Happens(info, h, e).activeStatus && !AttemptThrows(e)
    ensures Waits(Happens(info, h, e), At(e) + info.tryTimeInterval)
  {
    match e {
      case Check(q) => CheckTakesOut(info, h, q);
      case _ =>
    }
  }

  /** A node that anything else has taken out is not offered before a retry interval has passed, whatever
      happens in between, as long as nothing works. */
  lemma OutForAnInterval(info: Info, h: Health, e: Event, events: seq<Event>, r: Asked)
    requires h.activeStatus && !Happens(info, h, e).activeStatus && !AttemptThrows(e)
    requires NothingWorks(events) && At(e) <= r.at && forall k :: 0 <= k < |events| ==> At(e) <= At(events[k])
    requires !r.forceConnect && Checked(info, AfterAll(info, Happens(info, h, e), events), r).ok
    ensures r.at >= At(e) + info.tryTimeInterval
  {
    var until := At(e) + info.tryTimeInterval;
    TakenOutWaits(info, h, e);
    StaysWaiting(info, Happens(info, h, e), until, events);
    NotOffered(info, AfterAll(info, Happens(info, h, e), events), until, r);
  }

  lemma NotOffered(info: Info, h: Health, until: int, r: Asked)
    requires Waits(h, until) && !r.forceConnect && Checked(info, h, r).ok && r.at + info.tryTimeInterval >= until
    ensures r.at >= until
  {
  }

  // ----- what each event does -----

  /** A call that succeeds brings an inactive node back, forgets its failures, and begins a window; the count
      of failed connections stays. */
  lemma SuccessBringsBack(info: Info, h: Health, at: int)
    requires !h.activeStatus
    ensures var g := Happens(info, h, Call(false, at));
            && g.activeStatus && g.frequenceFailInvoke == 0 && g.totalInvoke == 1 && g.timeoutInvoke == 0
            && g.nextFinishInvokeTime == at + info.checkTimeoutInterval && !g.connTimeout && !g.connExc
            && g.connExcCnt == h.connExcCnt && g.nextRetryTime == h.nextRetryTime
  {
  }

  /** A call that fails changes nothing of an inactive node. */
  lemma FailureWhileOut(info: Info, h: Health, at: int)
    requires !h.activeStatus
    ensures Happens(info, h, Call(true, at)) == h
  {
  }

  /** A call on a node that stays active is counted in the window if that is not over, and otherwise ends it;
      windows end more than checkTimeoutInterval after one another. */
  lemma CallCounts(info: Info, h: Health, fail: bool, at: int)
    requires h.activeStatus && Happens(info, h, Call(fail, at)).activeStatus
    ensures var g := Happens(info, h, Call(fail, at));
            && (at <= h.nextFinishInvokeTime ==>
                  && g.totalInvoke == h.totalInvoke + 1 && g.timeoutInvoke == h.timeoutInvoke + (if fail then 1 else 0)
                  && g.nextFinishInvokeTime == h.nextFinishInvokeTime)
            && (at > h.nextFinishInvokeTime ==>
                  g.totalInvoke == g.timeoutInvoke == 0 && g.nextFinishInvokeTime == at + info.checkTimeoutInterval)
            && g.frequenceFailInvoke == (if fail then h.frequenceFailInvoke + 1 else 0)
            && (fail && h.frequenceFailInvoke == 0 ==> g.frequenceFailTime == at + info.minFrequenceFailTime)
            && (h.frequenceFailInvoke > 0 ==> g.frequenceFailTime == h.frequenceFailTime)
            && (g.connTimeout, g.connExc, g.connExcCnt, g.nextRetryTime) == (h.connTimeout, h.connExc, h.connExcCnt, h.nextRetryTime)
  {
  }

  /** A connection that is there ends the connect timeout and the connection trouble and makes the node active;
      its calls are remembered. */
  lemma ConnectionHeals(info: Info, h: Health, at: int)
    ensures Happens(info, h, Reconnect(Succeeds, at))
         == h.(activeStatus := true, connTimeout := false, connExc := false, connExcCnt := 0)
    ensures Happens(info, h, ConnExc(false, at)) == h.(activeStatus := true, connExc := false, connExcCnt := 0)
    ensures Happens(info, h, ConTimeout(false, at)) == h.(connTimeout := false)
  {
  }

  /** An attempt that throws takes the node out, and one that is under way changes nothing; a connect timeout
      takes it out once, until it is over. */
  lemma ConnectionFails(info: Info, h: Health, at: int)
    ensures Happens(info, h, Reconnect(Throws, at)) == h.(activeStatus := false)
    ensures Happens(info, h, Reconnect(Starts, at)) == h
    ensures h.connTimeout ==> Happens(info, h, ConTimeout(true, at)) == h
    ensures !h.connTimeout ==> !Happens(info, h, ConTimeout(true, at)).activeStatus && Happens(info, h, ConTimeout(true, at)).connTimeout
  {
  }

  /** A check asks for a connection exactly when there is none and it is forced, or the node is active, or its
      retry time has come; then the retry time of a node that is out, or of any that is forced, is set anew. */
  lemma CheckTries(info: Info, h: Health, q: Asked)
    requires !(q.link.Connecting? && q.late)
    ensures var r, tries := Checked(info, h, q), q.forceConnect || h.activeStatus || q.at >= h.nextRetryTime;
            && r.link == (if q.link != Unconnected || !tries then q.link
                          else match q.attempt case Throws => Unconnected case Starts => Connecting case Succeeds => Connected)
            && r.health.nextRetryTime == (if q.forceConnect then if q.link == Unconnected then q.at + info.tryTimeInterval else h.nextRetryTime
                                          else if !h.activeStatus && tries then q.at + info.tryTimeInterval else h.nextRetryTime)
            && (tries && q.link == Unconnected ==>
                  r.health.activeStatus == match q.attempt case Throws => false case Starts => h.activeStatus case Succeeds => true)
            && (!tries || q.link != Unconnected ==> r.health.activeStatus == h.activeStatus)
  {
  }

  /** A connection under way that is late takes the node out, unless it has timed out before, and is given up. */
  lemma LateCheck(info: Info, h: Health, q: Asked)
    requires q.link.Connecting? && q.late && !h.connTimeout && !q.forceConnect && info.tryTimeInterval > 0
    ensures var r := Checked(info, h, q);
            !r.ok && r.link == Unconnected && r.health.connTimeout && !r.health.activeStatus
            && r.health.nextRetryTime == q.at + info.tryTimeInterval
  {
  }

  class Breaker {
    const info: Info
    var activeStatus: bool
    var totalInvoke: nat
    var timeoutInvoke: nat
    var nextFinishInvokeTime: int
    var frequenceFailInvoke: nat
    var frequenceFailTime: int
    var nextRetryTime: int
    var connTimeout: bool
    var connExc: bool
    var connExcCnt: nat
    ghost var results: seq<Result>
    ghost var window: seq<Result>

    function Value(): Health
      reads this
    {
      Health(activeStatus, totalInvoke, timeoutInvoke, nextFinishInvokeTime, frequenceFailInvoke, frequenceFailTime,
             nextRetryTime, connTimeout, connExc, connExcCnt)
    }

    ghost predicate Valid()
      reads this
    {
      Agree(info, results, window, totalInvoke, timeoutInvoke, frequenceFailInvoke, frequenceFailTime)
    }

    constructor (i: Info)
      ensures Valid() && info == i && results == [] && window == []
      ensures Value() == Health(true, 0, 0, 0, 0, 0, 0, false, false, 0)
    {
      info, activeStatus, results, window := i, true, [], [];
      totalInvoke, timeoutInvoke, nextFinishInvokeTime, frequenceFailInvoke, frequenceFailTime := 0, 0, 0, 0, 0;
      nextRetryTime, connTimeout, connExc, connExcCnt := 0, false, false, 0;
    }

    /** timeoutInvoke never exceeds totalInvoke. */
    lemma CountersOrdered()
      requires Valid()
      ensures timeoutInvoke <= totalInvoke
    {
      AgreeWindow(info, results, window, totalInvoke, timeoutInvoke, frequenceFailInvoke, frequenceFailTime);
    }

    /** setInactive(): also closes the connection. */
    method SetInactive(now: int)
      modifies this`activeStatus, this`nextRetryTime
      ensures Value() == Out(info, old(Value()), now)
    {
      activeStatus := false;
      nextRetryTime := now + info.tryTimeInterval;
    }

    /** finishInvoke(bool): closes says that setInactive() has closed the connection. */
    method FinishInvoke(fail: bool, now: int) returns (closes: bool)
      requires Valid()
      modifies this
      ensures Valid() && Value() == Finished(info, old(Value()), fail, now)
      ensures !old(activeStatus) && fail ==>
                !closes && !activeStatus && results == old(results) && window == old(window)
      ensures !old(activeStatus) && !fail ==>
                !closes && activeStatus && results == old(results) + [Result(now, false)]
                && window == [Result(now, false)] && !connTimeout && !connExc
      ensures old(activeStatus) ==>
                var w := old(window) + [Result(now, fail)];
                var frequence := FrequenceTrips(info, results, now);
                var ended := now > old(nextFinishInvokeTime);
                && results == old(results) + [Result(now, fail)]
                && closes == (!frequence && ended && RadioTrips(info, w))
                && activeStatus == !(frequence || closes)
                && window == if !frequence && ended && !closes then [] else w
    {
      closes := false;
      if !activeStatus {
        if !fail {
          Recover(now);
        }
        return;
      }
      closes := FinishActive(fail, now);
    }

    method FinishActive(fail: bool, now: int) returns (closes: bool)
      requires Valid() && activeStatus
      modifies this
      ensures Valid() && Value() == Finished(info, old(Value()), fail, now)
      ensures var w := old(window) + [Result(now, fail)];
              var frequence := FrequenceTrips(info, results, now);
              var ended := now > old(nextFinishInvokeTime);
              && results == old(results) + [Result(now, fail)]
              && closes == (!frequence && ended && RadioTrips(info, w))
              && activeStatus == !(frequence || closes)
              && window == if !frequence && ended && !closes then [] else w
    {
      closes := false;
      var tripped := CountResult(fail, now);
      if !tripped && now > nextFinishInvokeTime {
        closes := EndWindow(fail, now);
      }
    }

    method CountResult(fail: bool, now: int) returns (tripped: bool)
      requires Valid() && activeStatus
      modifies this`totalInvoke, this`timeoutInvoke, this`frequenceFailInvoke, this`frequenceFailTime,
               this`activeStatus, this`nextRetryTime, this`results, this`window
      ensures Valid() && results == old(results) + [Result(now, fail)] && window == old(window) + [Result(now, fail)]
      ensures tripped == FrequenceTrips(info, results, now) && activeStatus == !tripped
      ensures tripped == Frequent(info, Counted(info, old(Value()), fail, now), now)
      ensures var c := Counted(info, old(Value()), fail, now); Value() == if tripped then Out(info, c, now) else c
    {
      if fail {
        tripped := CountFailure(now);
      } else {
        CountSuccess(now);
        tripped := false;
      }
    }

    /** The counting of a failure, and the rule of consecutive failures. */
    method CountFailure(now: int) returns (tripped: bool)
      requires Valid() && activeStatus
      modifies this`totalInvoke, this`timeoutInvoke, this`frequenceFailInvoke, this`frequenceFailTime,
               this`activeStatus, this`nextRetryTime, this`results, this`window
      ensures Valid() && results == old(results) + [Result(now, true)] && window == old(window) + [Result(now, true)]
      ensures tripped == FrequenceTrips(info, results, now) && activeStatus == !tripped
      ensures tripped == Frequent(info, Counted(info, old(Value()), true, now), now)
      ensures var c := Counted(info, old(Value()), true, now); Value() == if tripped then Out(info, c, now) else c
    {
      EnterFailure(now);
      tripped := TestFrequence(now);
    }

    method TestFrequence(now: int) returns (tripped: bool)
      requires frequenceFailInvoke > 0
      modifies this`activeStatus, this`nextRetryTime
      ensures tripped == old(Frequent(info, Value(), now))
      ensures Value() == if tripped then Out(info, old(Value()), now) else old(Value())
    {
      tripped := frequenceFailInvoke >= info.frequenceFailInvoke && now >= frequenceFailTime;
      if tripped {
        activeStatus := false;
        nextRetryTime := now + info.tryTimeInterval;
      }
    }

    method EnterFailure(now: int)
      requires Valid()
      modifies this`totalInvoke, this`timeoutInvoke, this`frequenceFailInvoke, this`frequenceFailTime,
               this`results, this`window
      ensures Valid() && results == old(results) + [Result(now, true)] && window == old(window) + [Result(now, true)]
      ensures Value() == Counted(info, old(Value()), true, now)
      ensures Frequent(info, Value(), now) == FrequenceTrips(info, results, now)
    {
      AgreeFailure(info, results, window, totalInvoke, timeoutInvoke, frequenceFailInvoke, frequenceFailTime, now);
      results, window := results + [Result(now, true)], window + [Result(now, true)];
      totalInvoke := totalInvoke + 1;
      timeoutInvoke := timeoutInvoke + 1;
      if frequenceFailInvoke == 0 {
        frequenceFailTime := now + info.minFrequenceFailTime;
      }
      frequenceFailInvoke := frequenceFailInvoke + 1;
    }

    method CountSuccess(now: int)
      requires Valid()
      modifies this`totalInvoke, this`frequenceFailInvoke, this`results, this`window
      ensures Valid() && results == old(results) + [Result(now, false)] && window == old(window) + [Result(now, false)]
      ensures !FrequenceTrips(info, results, now) && Value() == Counted(info, old(Value()), false, now)
    {
      AgreeSuccess(info, results, window, totalInvoke, timeoutInvoke, frequenceFailInvoke, frequenceFailTime, now);
      results, window := results + [Result(now, false)], window + [Result(now, false)];
      totalInvoke := totalInvoke + 1;
      frequenceFailInvoke := 0;
    }

    /** A success while inactive. */
    method Recover(now: int)
      requires Valid() && !activeStatus
      modifies this
      ensures Valid() && results == old(results) + [Result(now, false)] && window == [Result(now, false)]
      ensures Value() == Recovered(info, old(Value()), now)
    {
      AgreeSuccess(info, results, window, totalInvoke, timeoutInvoke, frequenceFailInvoke, frequenceFailTime, now);
      activeStatus := true;
      frequenceFailInvoke := 0;
      nextFinishInvokeTime := now + info.checkTimeoutInterval;
      totalInvoke := 1;
      timeoutInvoke := 0;
      connTimeout := false;
      connExc := false;
      results, window := results + [Result(now, false)], [Result(now, false)];
    }

    /** The end of a window: trips, or starts the next. */
    method EndWindow(fail: bool, now: int) returns (closes: bool)
      requires Valid() && activeStatus && now > nextFinishInvokeTime && window != [] && window[|window| - 1].fail == fail
      modifies this
      ensures Valid() && results == old(results)
      ensures closes == RadioTrips(info, old(window)) && activeStatus == !closes
      ensures window == if closes then old(window) else []
      ensures Value() == WindowEnded(info, old(Value()), fail, now)
    {
      AgreeWindow(info, results, window, totalInvoke, timeoutInvoke, frequenceFailInvoke, frequenceFailTime);
      closes := TestRadio(fail, now);
      if !closes {
        window := [];
      }
    }

    method TestRadio(fail: bool, now: int) returns (closes: bool)
      requires now > nextFinishInvokeTime
      modifies this`totalInvoke, this`timeoutInvoke, this`nextFinishInvokeTime, this`activeStatus, this`nextRetryTime
      ensures closes == old(Radio(info, Value(), fail, now))
      ensures Value() == WindowEnded(info, old(Value()), fail, now)
    {
      nextFinishInvokeTime := now + info.checkTimeoutInterval;
      closes := fail && timeoutInvoke >= info.minTimeoutInvoke && timeoutInvoke as real >= info.radio * totalInvoke as real;
      if closes {
        SetInactive(now);
      } else {
        totalInvoke := 0;
        timeoutInvoke := 0;
      }
    }

    method SetConTimeout(conTimeout: bool, now: int) returns (closes: bool)
      requires Valid()
      modifies this`connTimeout, this`activeStatus, this`nextRetryTime
      ensures Valid() && closes == (conTimeout && !old(connTimeout))
      ensures Value() == ConTimeoutSet(info, old(Value()), conTimeout, now)
    {
      closes := false;
      if conTimeout != connTimeout {
        connTimeout := conTimeout;
        if connTimeout {
          SetInactive(now);
          closes := true;
        }
      }
    }

    /** addConnExc(): a failed or a successful connection. A success makes the node active and leaves the
        history of its calls as it was. */
    method AddConnExc(exc: bool, now: int) returns (closes: bool)
      requires Valid()
      modifies this`connExc, this`connExcCnt, this`activeStatus, this`nextRetryTime
      ensures Valid() && Value() == ConnExcAdded(info, old(Value()), exc, now)
      ensures closes == (exc && !old(connExc) && old(connExcCnt) + 1 >= info.maxConnectExc)
    {
      closes := false;
      if exc {
        if !connExc {
          connExcCnt := connExcCnt + 1;
          if connExcCnt >= info.maxConnectExc {
            SetInactive(now);
            connExc := true;
            closes := true;
          }
        }
      } else {
        connExc := false;
        connExcCnt := 0;
        if !activeStatus {
          activeStatus := true;
        }
      }
    }

    method Reconnect(attempt: Attempt, now: int) returns (link: Link)
      requires Valid()
      modifies this`connTimeout, this`connExc, this`connExcCnt, this`activeStatus, this`nextRetryTime
      ensures Valid() && Value() == Reconnected(info, old(Value()), attempt, now)
      ensures link == LinkAfter(attempt)
    {
      match attempt {
        case Throws =>
          activeStatus := false;
          link := Unconnected;
        case Starts =>
          link := Connecting;
        case Succeeds =>
          var c := SetConTimeout(false, now);
          c := AddConnExc(false, now);
          link := Connected;
      }
    }

    method CheckActive(q: Asked) returns (ok: bool, link': Link)
      requires Valid()
      modifies this`connTimeout, this`connExc, this`connExcCnt, this`activeStatus, this`nextRetryTime
      ensures Valid() && Answer(Value(), link', ok) == Checked(info, old(Value()), q)
    {
      ghost var h := Value();
      link' := CheckTimeout(q);
      assert Value() == GivenUp(info, h, q);
      if q.forceConnect {
        ok, link' := Force(q, link');
      } else {
        ok, link' := Try(q, link');
      }
    }

    /** The transceiver's checkTimeout(). */
    method CheckTimeout(q: Asked) returns (link: Link)
      requires Valid()
      modifies this`connTimeout, this`activeStatus, this`nextRetryTime
      ensures Valid() && Value() == GivenUp(info, old(Value()), q)
      ensures link == if Late(q) then Unconnected else q.link
    {
      link := q.link;
      if link.Connecting? && q.late {
        var c := SetConTimeout(true, q.at);
        link := Unconnected;
      }
    }

    method Force(q: Asked, link: Link) returns (ok: bool, link': Link)
      requires Valid()
      modifies this`connTimeout, this`connExc, this`connExcCnt, this`activeStatus, this`nextRetryTime
      ensures Valid() && Answer(Value(), link', ok) == Forced(info, old(Value()), q, link)
    {
      link' := link;
      if link' == Unconnected {
        nextRetryTime := q.at + info.tryTimeInterval;
        assert Value() == RetryFrom(info, old(Value()), q.at);
        link' := Reconnect(q.attempt, q.at);
      }
      ok := link' != Unconnected;
    }

    method Try(q: Asked, link: Link) returns (ok: bool, link': Link)
      requires Valid()
      modifies this`connTimeout, this`connExc, this`connExcCnt, this`activeStatus, this`nextRetryTime
      ensures Valid() && Answer(Value(), link', ok) == Tried(info, old(Value()), q, link)
    {
      link' := link;
      if !activeStatus && q.at < nextRetryTime {
        return false, link';
      }
      if !activeStatus {
        nextRetryTime := q.at + info.tryTimeInterval;
        assert Value() == RetryFrom(info, old(Value()), q.at);
      }
      if link' == Unconnected {
        link' := Reconnect(q.attempt, q.at);
      }
      ok := link' == Connected;
    }
  }
}
