/** In serial mode requests go out in the order in which they were invoked. */
module SerialOrder {
  import opened Basics
  import opened Sockets
  import opened Deadlines
  import opened TimeoutQueues
  import opened SerialModel

  // ----- the line -----

  predicate Known(data: Data, send: seq<int>) {
    forall i :: 0 <= i < |send| ==> send[i] in data
  }

  /** The requests of a send list, the one to be sent next at the front. */
  function Waiting(data: Data, send: seq<int>): (ms: seq<Msg>)
    requires Known(data, send)
    ensures |ms| == |send|
    ensures send != [] ==> ms[0] == data[send[|send| - 1]].ptr
  {
    if send == [] then [] else Waiting(data, send[1..]) + [data[send[0]].ptr]
  }

  ghost predicate Increasing(ms: seq<Msg>) {
    forall i, j :: 0 <= i < j < |ms| ==> ms[i].key < ms[j].key
  }

  /** What was asked on the connection and then what waits, in the order of the keys. */
  ghost predicate Lined(asked: seq<Msg>, waiting: seq<Msg>, invoked: set<Msg>) {
    Increasing(asked + waiting) && forall m :: m in asked + waiting ==> m in invoked
  }

  ghost predicate InLine(a: Adapter) {
    Known(a.queue.data, a.queue.send) && Lined(a.asked, Waiting(a.queue.data, a.queue.send), a.invoked)
  }

  lemma {:induction false} SameWaiting(data: Data, other: Data, send: seq<int>)
    requires Known(data, send)
    requires forall i :: 0 <= i < |send| ==> send[i] in other && other[send[i]].ptr == data[send[i]].ptr
    ensures Known(other, send) && Waiting(other, send) == Waiting(data, send)
  {
    if send != [] {
      SameWaiting(data, other, send[1..]);
    }
  }

  lemma {:induction false} WaitingAppend(data: Data, a: seq<int>, b: seq<int>)
    requires Known(data, a) && Known(data, b)
    ensures Known(data, a + b) && Waiting(data, a + b) == Waiting(data, b) + Waiting(data, a)
  {
    if a == [] {
      assert a + b == b;
    } else {
      assert (a + b)[0] == a[0] && (a + b)[1..] == a[1..] + b;
      WaitingAppend(data, a[1..], b);
    }
  }

  lemma WaitingOne(data: Data, id: int)
    requires id in data
    ensures Known(data, [id]) && Waiting(data, [id]) == [data[id].ptr]
  {
    assert [id][1..] == [];
  }

  lemma WaitingFront(data: Data, id: int, send: seq<int>)
    requires Known(data, send) && id in data
    ensures Known(data, [id] + send) && Waiting(data, [id] + send) == Waiting(data, send) + [data[id].ptr]
  {
    WaitingOne(data, id);
    WaitingAppend(data, [id], send);
  }

  function Out(ms: seq<Msg>, i: nat): seq<Msg>
    requires i < |ms|
  {
    ms[..i] + ms[i + 1..]
  }

  lemma OutMiddle(a: seq<Msg>, x: Msg, b: seq<Msg>)
    ensures Out((a + [x]) + b, |a|) == a + b
  {
  }

  lemma WaitingMiddle(data: Data, a: seq<int>, x: int, b: seq<int>)
    requires Known(data, a) && x in data && Known(data, b)
    ensures Known(data, a + b) && Known(data, a + ([x] + b))
    ensures |Waiting(data, a + ([x] + b))| > |b| && Waiting(data, a + b) == Out(Waiting(data, a + ([x] + b)), |b|)
  {
    WaitingAppend(data, a, b);
    WaitingFront(data, x, b);
    WaitingAppend(data, a, [x] + b);
    OutMiddle(Waiting(data, b), data[x].ptr, Waiting(data, a));
  }

  /** Taking a place out of the list takes one request out of the line. */
  lemma WaitingCut(data: Data, send: seq<int>, cut: seq<int>, a: seq<int>, x: int, b: seq<int>)
    requires Known(data, send) && send == a + ([x] + b) && cut == a + b
    ensures Known(data, cut) && Waiting(data, cut) == Out(Waiting(data, send), |b|)
  {
    assert forall i :: 0 <= i < |a| ==> a[i] == send[i];
    assert forall i :: 0 <= i < |b| ==> b[i] == send[|a| + 1 + i];
    assert x == send[|a|];
    WaitingMiddle(data, a, x, b);
  }

  lemma LinedCut(asked: seq<Msg>, w: seq<Msg>, invoked: set<Msg>, k: nat)
    requires Lined(asked, w, invoked) && k < |w|
    ensures Lined(asked, Out(w, k), invoked)
  {
    var line, cut := asked + w, asked + Out(w, k);
    forall i | 0 <= i < |cut| ensures cut[i] == line[if i < |asked| + k then i else i + 1] {}
    forall m | m in cut ensures m in line {
      var i :| 0 <= i < |cut| && cut[i] == m;
      assert line[if i < |asked| + k then i else i + 1] == m;
    }
  }

  /** The first in the line is asked, or dropped. */
  lemma LinedNext(asked: seq<Msg>, w: seq<Msg>, invoked: set<Msg>)
    requires Lined(asked, w, invoked) && w != []
    ensures Lined(asked + [w[0]], w[1..], invoked) && Lined(asked, w[1..], invoked)
  {
    assert (asked + [w[0]]) + w[1..] == asked + w;
    LinedCut(asked, w, invoked, 0);
    assert Out(w, 0) == w[1..];
  }

  lemma LinedLast(asked: seq<Msg>, w: seq<Msg>, invoked: set<Msg>, m: Msg)
    requires Lined(asked, w, invoked) && forall x :: x in invoked ==> x.key < m.key
    ensures Lined(asked, w + [m], invoked + {m}) && Lined(asked, w, invoked + {m})
  {
    var line := asked + w;
    assert asked + (w + [m]) == line + [m];
    assert forall i :: 0 <= i < |line| ==> line[i] in line;
  }

  lemma LinedAlone(asked: seq<Msg>, w: seq<Msg>, invoked: set<Msg>)
    requires Lined(asked, w, invoked)
    ensures Lined([], w, invoked)
  {
    var line := asked + w;
    assert [] + w == w;
    assert forall i :: 0 <= i < |w| ==> w[i] == line[|asked| + i];
    assert forall m :: m in w ==> m in line;
  }

  // ----- steps -----

  lemma CloseInLine(a: Adapter)
    requires InLine(a)
    ensures InLine(Close(a))
  {
    LinedAlone(a.asked, Waiting(a.queue.data, a.queue.send), a.invoked);
  }

  lemma FinishInLine(a: Adapter, m: Msg, o: Outcome, trips: bool)
    requires InLine(a)
    ensures InLine(Finish(a, m, o, trips))
  {
    CloseInLine(a.(finished := a.finished + [Done(m, o)]));
  }

  lemma WithoutInLine(data: Data, send: seq<int>, id: int, asked: seq<Msg>, invoked: set<Msg>)
    requires Known(data, send) && Lined(asked, Waiting(data, send), invoked) && Distinct(send) && id in send
    ensures var cut := Without(send, id);
            && Known(data - {id}, cut) && Lined(asked, Waiting(data - {id}, cut), invoked)
  {
    var k := CutAt(send, id);
    WithoutWaiting(data, send, Without(send, id), id, k);
    LinedCut(asked, Waiting(data, send), invoked, |send| - 1 - k);
    WithoutKnown(data, send, id);
  }

  lemma CutAt(send: seq<int>, id: int) returns (k: nat)
    requires id in send
    ensures k < |send| && send[k] == id && Without(send, id) == send[..k] + send[k + 1..]
  {
    k := IndexOf(send, id);
    WithoutAt(send, id);
  }

  lemma WithoutWaiting(data: Data, send: seq<int>, cut: seq<int>, id: int, k: nat)
    requires Known(data, send) && k < |send| && send[k] == id && cut == send[..k] + send[k + 1..]
    ensures Known(data, cut) && |Waiting(data, send)| > |send| - 1 - k
    ensures Waiting(data, cut) == Out(Waiting(data, send), |send| - 1 - k)
  {
    var a, b := send[..k], send[k + 1..];
    assert send == a + ([id] + b);
    WaitingCut(data, send, cut, a, id, b);
  }

  lemma WithoutKnown(data: Data, send: seq<int>, id: int)
    requires id in send && Known(data, Without(send, id)) && Distinct(send)
    ensures Known(data - {id}, Without(send, id))
    ensures Waiting(data - {id}, Without(send, id)) == Waiting(data, Without(send, id))
  {
    var cut := Without(send, id);
    WithoutMembers(send, id);
    assert forall i :: 0 <= i < |cut| ==> cut[i] in cut && cut[i] != id;
    SameWaiting(data, data - {id}, cut);
  }

  lemma EraseInLine(a: Adapter, id: int)
    requires InLine(a) && Sound(a.queue) && id in a.queue.data
    ensures InLine(a.(queue := Erase(a.queue, id)))
  {
    var q := a.queue;
    if q.data[id].hasSend {
      assert forall i :: 0 <= i < |q.send| ==> q.send[i] in q.send && q.send[i] != id;
      SameWaiting(q.data, q.data - {id}, q.send);
    } else {
      WithoutInLine(q.data, q.send, id, a.asked, a.invoked);
    }
  }

  lemma SentInLine(a: Adapter, m: Msg)
    requires InLine(a) && Sound(a.queue) && a.queue.send != []
    requires a.queue.send[|a.queue.send| - 1] in a.queue.data && m == a.queue.data[a.queue.send[|a.queue.send| - 1]].ptr
    ensures InLine(a.(queue := Sent(a.queue), asked := a.asked + [m]))
    ensures InLine(a.(queue := Sent(a.queue)))
  {
    var q, n := a.queue, |a.queue.send|;
    var w := Waiting(q.data, q.send);
    WaitingCut(q.data, q.send, q.send[..n - 1], q.send[..n - 1], q.send[n - 1], []);
    assert Out(w, 0) == w[1..];
    LinedNext(a.asked, w, a.invoked);
    SameWaiting(q.data, Sent(q).data, q.send[..n - 1]);
  }

  lemma FailedInLine(a: Adapter, id: int, m: Msg, trips: bool)
    requires InLine(a) && Sound(a.queue) && id in a.queue.data
    ensures Close(a).queue == a.queue
    ensures InLine(Finish(Close(a).(queue := Erase(a.queue, id)), m, Failed, trips))
  {
    CloseInLine(a);
    EraseInLine(Close(a), id);
    FinishInLine(Close(a).(queue := Erase(a.queue, id)), m, Failed, trips);
  }

  /** What sending the oldest waiting request, m with the given id, can come to. */
  ghost predicate Moved(a: Adapter, id: int, m: Msg, trips: bool, r: Adapter)
    requires Sound(a.queue) && a.queue.send != [] && id == a.queue.send[|a.queue.send| - 1] && id in a.queue.data
  {
    || r == a
    || r == Finish(Close(a).(queue := Erase(a.queue, id)), m, Failed, trips)
    || (r.queue == Sent(a.queue) && r.invoked == a.invoked && (r.asked == a.asked || r.asked == a.asked + [m]))
  }

  lemma DoInvokeMoves(a: Adapter, kernel: seq<Kernel>, trips: set<Msg>, id: int)
    requires Sound(a.queue) && a.queue.send != [] && id == a.queue.send[|a.queue.send| - 1] && id in a.queue.data
    requires a.requestMsg == None
    ensures Moved(a, id, a.queue.data[id].ptr, a.queue.data[id].ptr in trips, DoInvokeSerial(a, kernel, trips))
  {
    var (ret, b) := SendRequest(a, a.queue.data[id].ptr, kernel);
    assert ret == RetNotSend ==> b == a;
  }

  lemma MovedInLine(a: Adapter, id: int, m: Msg, trips: bool, r: Adapter)
    requires Sound(a.queue) && a.queue.send != [] && id == a.queue.send[|a.queue.send| - 1] && id in a.queue.data
    requires InLine(a) && m == a.queue.data[id].ptr && Moved(a, id, m, trips, r)
    ensures InLine(r)
  {
    FailedInLine(a, id, m, trips);
    SentInLine(a, m);
  }

  lemma DoInvokeInLine(a: Adapter, kernel: seq<Kernel>, trips: set<Msg>)
    requires Inv(a) && InLine(a)
    ensures InLine(DoInvokeSerial(a, kernel, trips))
  {
    if a.requestMsg == None && a.queue.send != [] {
      var id := a.queue.send[|a.queue.send| - 1];
      assert id in a.queue.send;
      var m := a.queue.data[id].ptr;
      DoInvokeMoves(a, kernel, trips, id);
      MovedInLine(a, id, m, m in trips, DoInvokeSerial(a, kernel, trips));
    }
  }

  lemma PushUnsentInLine(a: Adapter, m: Msg)
    requires Inv(a) && InLine(a) && forall x :: x in a.invoked ==> x.key < m.key
    ensures InLine(PushUnsent(a.(invoked := a.invoked + {m}), m))
  {
    var q := a.queue;
    var w := Waiting(q.data, q.send);
    LinedLast(a.asked, w, a.invoked, m);
    if m.id in q.data {
      FinishInLine(a.(invoked := a.invoked + {m}), m, Failed, false);
    } else {
      var later := q.data[m.id := Item(m, false, m.deadline)];
      SameWaiting(q.data, later, q.send);
      WaitingFront(later, m.id, q.send);
    }
  }

  lemma DirectInLine(a: Adapter, m: Msg, asked: seq<Msg>)
    requires InLine(a) && a.queue.data == map[] && a.queue.send == []
    requires forall x :: x in a.invoked ==> x.key < m.key
    requires asked == a.asked || asked == a.asked + [m] || asked == []
    ensures Lined(asked, [], a.invoked + {m})
  {
    assert Waiting(a.queue.data, a.queue.send) == [];
    LinedLast(a.asked, [], a.invoked, m);
    LinedNext(a.asked, [] + [m], a.invoked + {m});
    assert ([] + [m])[1..] == [] && ([] + [m])[0] == m;
    LinedAlone(a.asked, [], a.invoked + {m});
  }

  /** What sending m at once can come to. */
  ghost predicate Direct(a: Adapter, m: Msg, r: Adapter) {
    || r == PushUnsent(a.(invoked := a.invoked + {m}), m)
    || (r.queue.send == [] && r.invoked == a.invoked + {m} && (r.asked == a.asked || r.asked == a.asked + [m] || r.asked == []))
  }

  lemma DirectMoves(a: Adapter, m: Msg, kernel: seq<Kernel>)
    requires a.requestMsg == None && a.queue.send == [] && a.queue.data == map[]
    ensures Direct(a, m, InvokeSerial(a.(invoked := a.invoked + {m}), m, kernel))
  {
    var (ret, c) := SendRequest(a.(invoked := a.invoked + {m}), m, kernel);
    assert ret == RetNotSend ==> c == a.(invoked := a.invoked + {m});
  }

  lemma DirectSendInLine(a: Adapter, m: Msg, r: Adapter)
    requires Inv(a) && InLine(a) && forall x :: x in a.invoked ==> x.key < m.key
    requires a.queue.send == [] && a.queue.data == map[] && Direct(a, m, r)
    ensures InLine(r)
  {
    if r == PushUnsent(a.(invoked := a.invoked + {m}), m) {
      PushUnsentInLine(a, m);
    } else {
      DirectInLine(a, m, r.asked);
    }
  }

  lemma InvokeInLine(a: Adapter, m: Msg, kernel: seq<Kernel>)
    requires Inv(a) && InLine(a) && forall x :: x in a.invoked ==> x.key < m.key
    ensures InLine(Invoke(a, m, kernel))
  {
    if |a.queue.send| >= a.limit {
      LinedLast(a.asked, Waiting(a.queue.data, a.queue.send), a.invoked, m);
      FinishInLine(a.(invoked := a.invoked + {m}), m, Failed, false);
    } else if a.requestMsg == None && a.queue.send == [] {
      DirectQueueEmpty(a);
      DirectMoves(a, m, kernel);
      DirectSendInLine(a, m, InvokeSerial(a.(invoked := a.invoked + {m}), m, kernel));
    } else {
      PushUnsentInLine(a, m);
    }
  }

  lemma RespondInLine(a: Adapter, rsp: Reply, closing: bool, trips: set<Msg>)
    requires Inv(a) && InLine(a) && Serves(a, rsp)
    ensures InLine(Respond(a, rsp, closing, trips))
  {
    AnswerMeetsRequest(a, rsp, closing, trips);
    var b := a.(answered := a.answered + {rsp.to});
    CloseInLine(b);
    var c := if closing then Close(b) else b;
    var m := rsp.to;
    EraseInLine(c, m.id);
    FinishInLine(c.(queue := Erase(a.queue, m.id), requestMsg := None), m, Answered(rsp), m in trips);
  }

  lemma ExpireInLine(a: Adapter, trips: set<Msg>)
    requires Inv(a) && InLine(a) && a.queue.time != []
    ensures InLine(ExpireOne(a, trips))
  {
    assert a.queue.time[0] in a.queue.time;
    var id := a.queue.time[0].key;
    var m := a.queue.data[id].ptr;
    var b := a.(queue := Erase(a.queue, id));
    EraseInLine(a, id);
    CloseInLine(b.(requestMsg := None));
    var c := if a.requestMsg == Some(m) then Close(b.(requestMsg := None)) else b;
    FinishInLine(c, m, TimedOut, m in trips);
  }

  lemma {:induction false} DoTimeoutInLine(a: Adapter, now: int, trips: set<Msg>)
    requires Inv(a) && InLine(a)
    ensures InLine(DoTimeout(a, now, trips))
    decreases |a.queue.time|
  {
    if Expired(a.queue, now) {
      assert a.queue.time[0] in a.queue.time;
      ExpireOneKeeps(a, trips);
      ExpireInLine(a, trips);
      EraseSound(a.queue, a.queue.time[0].key);
      DoTimeoutInLine(ExpireOne(a, trips), now, trips);
    }
  }

  lemma DoRequestInLine(a: Adapter, flush: seq<Kernel>, kernel: seq<Kernel>, trips: set<Msg>)
    requires Inv(a) && InLine(a)
    ensures InLine(DoRequest(a, flush, kernel, trips))
  {
    if !a.link.Unconnected? {
      var w := Write(a.sendBuffer, flush);
      CloseInLine(a);
      var b := a.(sendBuffer := w.1);
      if !w.0.RetError? && w.1 == [] {
        assert Inv(b) && InLine(b);
        DoInvokeInLine(b, kernel, trips);
      }
    }
  }

  lemma StepInLine(a: Adapter, e: Event)
    requires Inv(a) && Allowed(a, e) && InLine(a)
    requires e.Invoked? ==> forall x :: x in a.invoked ==> x.key < e.msg.key
    ensures InLine(Step(a, e))
  {
    match e {
      case Invoked(m, kernel) => InvokeInLine(a, m, kernel);
      case Writable(flush, kernel, trips) => DoRequestInLine(a, flush, kernel, trips);
      case Response(rsp, closing, trips) => RespondInLine(a, rsp, closing, trips);
      case Tick(now, trips) => DoTimeoutInLine(a, now, trips);
      case Closed => CloseInLine(a);
      case _ =>
    }
  }

  /** When the keys count the invocations, the requests asked on any connection, in every state of every
      run, were invoked in the order in which they were asked, and before all that still wait. */
  lemma {:induction false} AskedInOrder(limit: nat, states: seq<Adapter>, events: seq<Event>, k: nat)
    requires IsRun(states, events) && states[0] == Start(limit) && k < |states|
    requires forall i :: 0 <= i < |events| && events[i].Invoked? ==>
               forall x :: x in states[i].invoked ==> x.key < events[i].msg.key
    ensures InLine(states[k]) && Increasing(states[k].asked)
  {
    if k == 0 {
      assert [] + Waiting(map[], []) == [];
    } else {
      AskedInOrder(limit, states, events, k - 1);
      EveryStateKeepsInv(limit, states, events, k - 1);
      StepInLine(states[k - 1], events[k - 1]);
    }
    var a := states[k];
    var line := a.asked + Waiting(a.queue.data, a.queue.send);
    assert forall i :: 0 <= i < |a.asked| ==> a.asked[i] == line[i];
  }
}
