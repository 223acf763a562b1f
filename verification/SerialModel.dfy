/** One connection of a client in serial mode: requests are sent one at a time, and a response is taken
    to answer the request that was sent last, whatever id it carries. The steps are those of
    AdapterProxy and Transceiver; what the network does is input. */
module SerialModel {
  import opened Basics
  import opened Sockets
  import opened Deadlines
  import opened TimeoutQueues

  /** A request; key tells the request objects apart. */
  datatype Msg = Msg(key: nat, id: int, data: seq<byte>, deadline: int)

  /** A response; to is the request the server answered with it, which the client never looks at. */
  datatype Reply = Reply(to: Msg, body: seq<byte>)

  datatype Outcome = Answered(rsp: Reply) | TimedOut | Failed

  datatype Done = Done(msg: Msg, outcome: Outcome)

  /** asked are the requests handed to the present connection, answered those the connection has
      delivered a response to; invoked and finished record the whole run. */
  datatype Adapter = Adapter(limit: nat, queue: Queue<Msg>, requestMsg: Option<Msg>,
                             link: Link, sendBuffer: seq<byte>,
                             asked: seq<Msg>, answered: set<Msg>,
                             invoked: set<Msg>, finished: seq<Done>)

  function Start(limit: nat): Adapter {
    Adapter(limit, Queue(map[], [], []), None, Unconnected, [], [], {}, {}, [])
  }

  // ----- the transceiver -----

  datatype Ret = RetOk | RetFull | RetError | RetNotSend

  /** Sends from a buffer until it is empty or the socket takes no more. */
  function Write(buffer: seq<byte>, kernel: seq<Kernel>): (r: (Ret, seq<byte>))
    ensures !r.0.RetNotSend? && (r.0.RetFull? <==> r.1 != [])
  {
    if buffer == [] then (RetOk, [])
    else if kernel == [] || kernel[0].Busy? then (RetFull, buffer)
    else if kernel[0].Broken? then (RetError, [])
    else Write(buffer[if kernel[0].n < |buffer| then kernel[0].n else |buffer|..], kernel[1..])
  }

  /** close(): the buffers go, and with the connection what was asked on it; requestMsg stays. */
  function Close(a: Adapter): Adapter {
    if a.link.Unconnected? then a
    else a.(link := Unconnected, sendBuffer := [], asked := [], answered := {})
  }

  function SendRequest(a: Adapter, m: Msg, kernel: seq<Kernel>): (Ret, Adapter) {
    if m.data == [] then (RetOk, a)
    else if a.sendBuffer != [] || a.link != Connected then (RetNotSend, a)
    else
      var w := Write(m.data, kernel);
      if w.0.RetError? then (RetError, Close(a)) else (w.0, a.(sendBuffer := w.1, asked := a.asked + [m]))
  }

  // ----- the adapter -----

  /** finishInvoke(msg), which closes the connection when the breaker trips. */
  function Finish(a: Adapter, m: Msg, outcome: Outcome, trips: bool): Adapter {
    var b := a.(finished := a.finished + [Done(m, outcome)]);
    if trips then Close(b) else b
  }

  function PushUnsent(a: Adapter, m: Msg): Adapter {
    var q := Push(a.queue, m.id, m, m.deadline, false);
    if q.None? then Finish(a, m, Failed, false) else a.(queue := q.value)
  }

  function PushSent(a: Adapter, m: Msg): Adapter {
    var q := Push(a.queue, m.id, m, m.deadline, true);
    if q.None? then Finish(a.(requestMsg := None), m, Failed, false)
    else a.(requestMsg := Some(m), queue := q.value)
  }

  function InvokeSerial(a: Adapter, m: Msg, kernel: seq<Kernel>): Adapter {
    if a.requestMsg == None && a.queue.send == [] then
      var (ret, b) := SendRequest(a, m, kernel);
      match ret
      case RetOk => PushSent(b, m)
      case RetFull => PushSent(b, m)
      case RetError => Finish(b.(requestMsg := None), m, Failed, false)
      case RetNotSend => PushUnsent(b, m)
    else PushUnsent(a, m)
  }

  function Invoke(a: Adapter, m: Msg, kernel: seq<Kernel>): Adapter {
    var b := a.(invoked := a.invoked + {m});
    if |a.queue.send| >= a.limit then Finish(b, m, Failed, false) else InvokeSerial(b, m, kernel)
  }

  function DoInvokeSerial(a: Adapter, kernel: seq<Kernel>, trips: set<Msg>): Adapter
    requires Sound(a.queue)
  {
    if a.requestMsg != None || a.queue.send == [] then a
    else
      var id := a.queue.send[|a.queue.send| - 1];
      assert id in a.queue.send;
      var m := a.queue.data[id].ptr;
      var (ret, b) := SendRequest(a, m, kernel);
      match ret
      case RetError => Finish(b.(queue := Erase(a.queue, id)), m, Failed, m in trips)
      case RetNotSend => b
      case _ => b.(requestMsg := Some(m), queue := Sent(a.queue))
  }

  /** doRequest(): first what is left in the buffer, then the next request. */
  function DoRequest(a: Adapter, flush: seq<Kernel>, kernel: seq<Kernel>, trips: set<Msg>): Adapter
    requires Sound(a.queue)
  {
    if a.link.Unconnected? then a
    else
      var w := Write(a.sendBuffer, flush);
      if w.0.RetError? then Close(a)
      else
        var b := a.(sendBuffer := w.1);
        if w.1 == [] then DoInvokeSerial(b, kernel, trips) else b
  }

  /** finishInvoke_serial(), for a response taken from the connection; closing is a packet that ends
      the connection. */
  function Respond(a: Adapter, rsp: Reply, closing: bool, trips: set<Msg>): Adapter
    requires Sound(a.queue) && (a.requestMsg.Some? ==> a.requestMsg.value.id in a.queue.data)
  {
    var b := a.(answered := a.answered + {rsp.to});
    var c := if closing then Close(b) else b;
    if a.requestMsg == None then c
    else
      var m := a.requestMsg.value;
      Finish(c.(queue := Erase(a.queue, m.id), requestMsg := None), m, Answered(rsp), m in trips)
  }

  /** One turn of doTimeout(). */
  function ExpireOne(a: Adapter, trips: set<Msg>): Adapter
    requires Sound(a.queue) && a.queue.time != []
  {
    assert a.queue.time[0] in a.queue.time;
    var m := a.queue.data[a.queue.time[0].key].ptr;
    var b := a.(queue := Erase(a.queue, a.queue.time[0].key));
    var c := if a.requestMsg == Some(m) then Close(b.(requestMsg := None)) else b;
    Finish(c, m, TimedOut, m in trips)
  }

  function DoTimeout(a: Adapter, now: int, trips: set<Msg>): Adapter
    requires Sound(a.queue)
    decreases |a.queue.time|
  {
    if !Expired(a.queue, now) then a
    else
      assert a.queue.time[0] in a.queue.time;
      EraseSound(a.queue, a.queue.time[0].key);
      DoTimeout(ExpireOne(a, trips), now, trips)
  }

  function Connect(a: Adapter, at: Link): Adapter {
    if a.link.Unconnected? then a.(link := at) else a
  }

  // ----- the invariant -----

  type Data = map<int, Item<Msg>>

  predicate Pending(data: Data, m: Msg) {
    m.id in data && data[m.id].ptr == m
  }

  function Ended(finished: seq<Done>): set<Msg> {
    set d | d in finished :: d.msg
  }

  ghost predicate Named(data: Data) {
    forall id :: id in data ==> data[id].ptr.id == id && data[id].ptr.deadline == data[id].deadline
  }

  /** A request in flight is requestMsg, is in the timeout queue, and is the only one there that has
      been sent. */
  ghost predicate OnlyOneSent(data: Data, requestMsg: Option<Msg>) {
    && (requestMsg.Some? ==> Pending(data, requestMsg.value) && data[requestMsg.value.id].hasSend)
    && (forall id :: id in data && data[id].hasSend ==> requestMsg == Some(data[id].ptr))
  }

  /** Everything asked on the connection is answered, but for requestMsg. */
  ghost predicate OnlyOneAsked(a: Adapter) {
    && (forall m :: m in a.asked ==> m in a.answered || a.requestMsg == Some(m))
    && (a.link != Connected ==> a.asked == [] && a.sendBuffer == [])
  }

  /** Every request invoked is in the queue or has been finished, never both, and never twice; and a
      request finished with a response is the one the response answers. */
  ghost predicate Ledger(data: Data, invoked: set<Msg>, finished: seq<Done>) {
    && (forall m :: m in invoked <==> Pending(data, m) || m in Ended(finished))
    && (forall m :: Pending(data, m) ==> m !in Ended(finished))
    && (forall i, j :: 0 <= i < j < |finished| ==> finished[i].msg != finished[j].msg)
    && (forall d :: d in finished && d.outcome.Answered? ==> d.outcome.rsp.to == d.msg)
  }

  ghost predicate Inv(a: Adapter) {
    && Sound(a.queue) && Named(a.queue.data) && OnlyOneSent(a.queue.data, a.requestMsg)
    && OnlyOneAsked(a) && Ledger(a.queue.data, a.invoked, a.finished)
  }

  lemma EndedGrows(finished: seq<Done>, d: Done)
    ensures Ended(finished + [d]) == Ended(finished) + {d.msg}
  {
    assert forall x :: x in finished + [d] <==> x in finished || x == d;
  }

  lemma LedgerEnds(data: Data, invoked: set<Msg>, finished: seq<Done>, id: int, o: Outcome)
    requires Named(data) && Ledger(data, invoked, finished) && id in data
    requires o.Answered? ==> o.rsp.to == data[id].ptr
    ensures Ledger(data - {id}, invoked, finished + [Done(data[id].ptr, o)])
  {
    var m := data[id].ptr;
    EndedGrows(finished, Done(m, o));
    assert Pending(data, m);
    forall x ensures Pending(data - {id}, x) <==> Pending(data, x) && x != m {}
    assert forall k :: 0 <= k < |finished| ==> finished[k] in finished && finished[k].msg in Ended(finished);
  }

  lemma LedgerFails(data: Data, invoked: set<Msg>, finished: seq<Done>, m: Msg)
    requires Ledger(data, invoked, finished) && m !in invoked
    ensures Ledger(data, invoked + {m}, finished + [Done(m, Failed)])
  {
    EndedGrows(finished, Done(m, Failed));
    assert forall k :: 0 <= k < |finished| ==> finished[k] in finished && finished[k].msg in Ended(finished);
  }

  lemma LedgerStarts(data: Data, invoked: set<Msg>, finished: seq<Done>, m: Msg, item: Item<Msg>)
    requires Ledger(data, invoked, finished) && m !in invoked && m.id !in data && item.ptr == m
    ensures Ledger(data[m.id := item], invoked + {m}, finished)
  {
    var later := data[m.id := item];
    forall x ensures Pending(later, x) <==> Pending(data, x) || x == m {}
  }

  lemma CloseKeeps(a: Adapter)
    requires Inv(a)
    ensures Inv(Close(a))
  {
  }

  lemma FailKeeps(a: Adapter, m: Msg)
    requires Inv(a) && m !in a.invoked
    ensures Inv(Finish(a.(invoked := a.invoked + {m}), m, Failed, false))
  {
    LedgerFails(a.queue.data, a.invoked, a.finished, m);
  }

  lemma PushUnsentKeeps(a: Adapter, m: Msg)
    requires Inv(a) && m !in a.invoked
    ensures Inv(PushUnsent(a.(invoked := a.invoked + {m}), m))
  {
    if m.id in a.queue.data {
      FailKeeps(a, m);
    } else {
      PushSound(a.queue, m.id, m, m.deadline, false);
      LedgerStarts(a.queue.data, a.invoked, a.finished, m, Item(m, false, m.deadline));
    }
  }

  /** With nothing in flight and nothing unsent the queue is empty, so a request that has been sent at
      once never fails for its id being taken. */
  lemma DirectQueueEmpty(a: Adapter)
    requires Inv(a) && a.requestMsg == None && a.queue.send == []
    ensures a.queue.data == map[]
  {
    assert forall id :: id !in a.queue.data;
  }

  lemma SendKeeps(a: Adapter, m: Msg, kernel: seq<Kernel>)
    requires Inv(a) && a.requestMsg == None
    ensures var (ret, b) := SendRequest(a, m, kernel);
            && b == a.(link := b.link, sendBuffer := b.sendBuffer, asked := b.asked, answered := b.answered)
            && (ret.RetError? || ret.RetNotSend? ==> OnlyOneAsked(b))
            && OnlyOneAsked(b.(requestMsg := Some(m)))
  {
  }

  lemma PushSentKeeps(a: Adapter, m: Msg)
    requires Sound(a.queue) && Named(a.queue.data) && a.requestMsg == None && a.queue.data == map[]
    requires Ledger(a.queue.data, a.invoked, a.finished) && m !in a.invoked
    requires OnlyOneAsked(a.(requestMsg := Some(m)))
    ensures Inv(PushSent(a.(invoked := a.invoked + {m}), m))
  {
    PushSound(a.queue, m.id, m, m.deadline, true);
    LedgerStarts(a.queue.data, a.invoked, a.finished, m, Item(m, true, m.deadline));
  }

  lemma InvokeKeeps(a: Adapter, m: Msg, kernel: seq<Kernel>)
    requires Inv(a) && m !in a.invoked
    ensures Inv(Invoke(a, m, kernel))
  {
    var b := a.(invoked := a.invoked + {m});
    if |a.queue.send| >= a.limit {
      FailKeeps(a, m);
    } else if a.requestMsg == None && a.queue.send == [] {
      DirectQueueEmpty(a);
      SendKeeps(a, m, kernel);
      var (ret, c) := SendRequest(a, m, kernel);
      assert SendRequest(b, m, kernel) == (ret, c.(invoked := b.invoked));
      match ret {
        case RetNotSend => PushUnsentKeeps(c, m);
        case RetError =>
          assert Inv(c);
          FailKeeps(c, m);
        case _ => PushSentKeeps(c, m);
      }
    } else {
      PushUnsentKeeps(a, m);
    }
  }

  lemma DoInvokeKeeps(a: Adapter, kernel: seq<Kernel>, trips: set<Msg>)
    requires Inv(a)
    ensures Inv(DoInvokeSerial(a, kernel, trips))
  {
    if a.requestMsg == None && a.queue.send != [] {
      var id := a.queue.send[|a.queue.send| - 1];
      assert id in a.queue.send;
      var m := a.queue.data[id].ptr;
      SendKeeps(a, m, kernel);
      var (ret, b) := SendRequest(a, m, kernel);
      match ret {
        case RetNotSend =>
        case RetError => ErasedKeeps(b, id, Failed, m in trips);
        case _ => SentKeeps(b);
      }
    }
  }

  lemma SentKeeps(a: Adapter)
    requires Sound(a.queue) && Named(a.queue.data) && Ledger(a.queue.data, a.invoked, a.finished)
    requires OnlyOneSent(a.queue.data, None) && a.queue.send != []
    requires a.queue.send[|a.queue.send| - 1] in a.queue.data
    requires OnlyOneAsked(a.(requestMsg := Some(a.queue.data[a.queue.send[|a.queue.send| - 1]].ptr)))
    ensures var m := a.queue.data[a.queue.send[|a.queue.send| - 1]].ptr;
            Inv(a.(requestMsg := Some(m), queue := Sent(a.queue)))
  {
    SentSound(a.queue);
    var id, q := a.queue.send[|a.queue.send| - 1], Sent(a.queue);
    forall x ensures Pending(q.data, x) <==> Pending(a.queue.data, x) {}
  }

  /** Taking a request that is not in flight out of the queue and finishing it. */
  lemma ErasedKeeps(a: Adapter, id: int, o: Outcome, trips: bool)
    requires Sound(a.queue) && Named(a.queue.data) && id in a.queue.data
    requires OnlyOneSent(a.queue.data - {id}, a.requestMsg) && OnlyOneAsked(a)
    requires Ledger(a.queue.data, a.invoked, a.finished)
    requires o.Answered? ==> o.rsp.to == a.queue.data[id].ptr
    ensures Inv(Finish(a.(queue := Erase(a.queue, id)), a.queue.data[id].ptr, o, trips))
  {
    EraseSound(a.queue, id);
    LedgerEnds(a.queue.data, a.invoked, a.finished, id, o);
  }

  lemma DoRequestKeeps(a: Adapter, flush: seq<Kernel>, kernel: seq<Kernel>, trips: set<Msg>)
    requires Inv(a)
    ensures Inv(DoRequest(a, flush, kernel, trips))
  {
    if !a.link.Unconnected? {
      var w := Write(a.sendBuffer, flush);
      if !w.0.RetError? {
        assert Inv(a.(sendBuffer := w.1));
        if w.1 == [] {
          DoInvokeKeeps(a.(sendBuffer := w.1), kernel, trips);
        }
      }
    }
  }

  /** What the server does: it answers a request only on the connection that carried it, and once. */
  predicate Serves(a: Adapter, rsp: Reply) {
    a.link == Connected && rsp.to in a.asked && rsp.to !in a.answered
  }

  /** A response taken from the connection completes the request it answers. */
  lemma AnswerMeetsRequest(a: Adapter, rsp: Reply, closing: bool, trips: set<Msg>)
    requires Inv(a) && Serves(a, rsp)
    ensures a.requestMsg == Some(rsp.to)
    ensures var b := Respond(a, rsp, closing, trips);
            && Inv(b) && b.requestMsg == None && !Pending(b.queue.data, rsp.to)
            && b.finished == a.finished + [Done(rsp.to, Answered(rsp))]
  {
    var m := rsp.to;
    var b := a.(answered := a.answered + {m}, requestMsg := None);
    var c := if closing then Close(b) else b;
    assert OnlyOneAsked(b) && OnlyOneAsked(c);
    ErasedKeeps(c, m.id, Answered(rsp), m in trips);
  }

  lemma ExpireOneKeeps(a: Adapter, trips: set<Msg>)
    requires Inv(a) && a.queue.time != []
    ensures Inv(ExpireOne(a, trips))
  {
    assert a.queue.time[0] in a.queue.time;
    var id := a.queue.time[0].key;
    var m := a.queue.data[id].ptr;
    var b := if a.requestMsg == Some(m) then Close(a.(requestMsg := None)) else a;
    assert OnlyOneAsked(b);
    ErasedKeeps(b, id, TimedOut, m in trips);
  }

  /** After doTimeout() no request is overdue; and each one that was has been finished. */
  lemma {:induction false} DoTimeoutKeeps(a: Adapter, now: int, trips: set<Msg>)
    requires Inv(a)
    ensures var b := DoTimeout(a, now, trips);
            Inv(b) && forall id :: id in b.queue.data ==> b.queue.data[id].deadline > now
    decreases |a.queue.time|
  {
    EarliestFirst(a.queue, now);
    if Expired(a.queue, now) {
      ExpireOneKeeps(a, trips);
      EraseSound(a.queue, a.queue.time[0].key);
      DoTimeoutKeeps(ExpireOne(a, trips), now, trips);
    }
  }

  // ----- runs -----

  datatype Event =
    | Invoked(msg: Msg, kernel: seq<Kernel>)
    | Writable(flush: seq<Kernel>, kernel: seq<Kernel>, trips: set<Msg>)
    | Response(rsp: Reply, closing: bool, trips: set<Msg>)
    | Tick(now: int, trips: set<Msg>)
    | Closed
    | Reconnected(at: Link)
    | ConnectDone

  /** Each request object is invoked once, and the server keeps to Serves. */
  predicate Allowed(a: Adapter, e: Event) {
    match e
    case Invoked(m, _) => m !in a.invoked
    case Response(rsp, _, _) => Serves(a, rsp)
    case _ => true
  }

  function Step(a: Adapter, e: Event): Adapter
    requires Inv(a)
  {
    match e
    case Invoked(m, kernel) => Invoke(a, m, kernel)
    case Writable(flush, kernel, trips) => DoRequest(a, flush, kernel, trips)
    case Response(rsp, closing, trips) => Respond(a, rsp, closing, trips)
    case Tick(now, trips) => DoTimeout(a, now, trips)
    case Closed => Close(a)
    case Reconnected(at) => Connect(a, at)
    case ConnectDone => if a.link.Connecting? then a.(link := Connected) else a
  }

  lemma StepKeeps(a: Adapter, e: Event)
    requires Inv(a) && Allowed(a, e)
    ensures Inv(Step(a, e))
  {
    match e {
      case Invoked(m, kernel) => InvokeKeeps(a, m, kernel);
      case Writable(flush, kernel, trips) => DoRequestKeeps(a, flush, kernel, trips);
      case Response(rsp, closing, trips) => AnswerMeetsRequest(a, rsp, closing, trips);
      case Tick(now, trips) => DoTimeoutKeeps(a, now, trips);
      case Closed => CloseKeeps(a);
      case _ =>
    }
  }

  /** The states a run goes through are linked by allowed steps. A step is defined where the invariant
      holds; that a run never leaves there is the lemma after this. */
  ghost predicate IsRun(states: seq<Adapter>, events: seq<Event>) {
    && |states| == |events| + 1
    && forall k :: 0 <= k < |events| ==>
         (Inv(states[k]) ==> Allowed(states[k], events[k]) && states[k + 1] == Step(states[k], events[k]))
  }

  /** Safety over every run: from a new adapter, whatever the order of requests, socket events,
      responses, timeouts and reconnections, every state keeps the invariant. */
  lemma {:induction false} EveryStateKeepsInv(limit: nat, states: seq<Adapter>, events: seq<Event>, k: nat)
    requires IsRun(states, events) && states[0] == Start(limit) && k < |states|
    ensures Inv(states[k])
  {
    if k > 0 {
      EveryStateKeepsInv(limit, states, events, k - 1);
      StepKeeps(states[k - 1], events[k - 1]);
    }
  }

  /** So at any time at most one of the requests on the connection is unanswered, and it is in the
      timeout queue, where finishInvoke_serial looks for it. */
  lemma AtMostOneInFlight(limit: nat, states: seq<Adapter>, events: seq<Event>, k: nat, m: Msg, n: Msg)
    requires IsRun(states, events) && states[0] == Start(limit) && k < |states|
    requires m in states[k].asked && m !in states[k].answered && n in states[k].asked && n !in states[k].answered
    ensures m == n && states[k].requestMsg == Some(m) && Pending(states[k].queue.data, m)
  {
    EveryStateKeepsInv(limit, states, events, k);
  }

  /** And every response a run takes completes the request it answers. */
  lemma EveryAnswerIsTheRightOne(limit: nat, states: seq<Adapter>, events: seq<Event>, k: nat, d: Done)
    requires IsRun(states, events) && states[0] == Start(limit) && k < |states|
    requires d in states[k].finished && d.outcome.Answered?
    ensures d.outcome.rsp.to == d.msg
  {
    EveryStateKeepsInv(limit, states, events, k);
  }

  // ----- a connection lost under a request -----

  /** The request in flight was asked on a connection that is gone. */
  predicate Lost(a: Adapter, m: Msg) {
    a.requestMsg == Some(m) && a.asked == []
  }

  lemma {:induction false} TickBefore(a: Adapter, m: Msg, now: int, trips: set<Msg>)
    requires Inv(a) && Lost(a, m) && now < m.deadline
    ensures Lost(DoTimeout(a, now, trips), m)
    decreases |a.queue.time|
  {
    if Expired(a.queue, now) {
      assert a.queue.time[0] in a.queue.time;
      EraseSound(a.queue, a.queue.time[0].key);
      ExpireOneKeeps(a, trips);
      TickBefore(ExpireOne(a, trips), m, now, trips);
    }
  }

  /** close() leaves requestMsg alone, so nothing is sent, whatever connection there is by then, until that
      request times out; and when it does, it is no longer in the way. */
  lemma LostBlocksUntilTimeout(a: Adapter, e: Event, m: Msg)
    requires Inv(a) && Allowed(a, e) && Lost(a, m)
    ensures Lost(Step(a, e), m) <==> !(e.Tick? && e.now >= m.deadline)
  {
    match e {
      case Tick(now, trips) =>
        if now < m.deadline {
          TickBefore(a, m, now, trips);
        } else {
          DoTimeoutKeeps(a, now, trips);
        }
      case _ =>
    }
  }

  /** Some run from a new adapter with these events ends in a. */
  ghost predicate Reaches(limit: nat, events: seq<Event>, a: Adapter) {
    exists states :: IsRun(states, events) && states[0] == Start(limit) && states[|events|] == a
  }

  lemma ReachesNext(limit: nat, events: seq<Event>, a: Adapter, e: Event)
    requires Reaches(limit, events, a) && Inv(a) && Allowed(a, e)
    ensures Reaches(limit, events + [e], Step(a, e)) && Inv(Step(a, e))
  {
    var states :| IsRun(states, events) && states[0] == Start(limit) && states[|events|] == a;
    var more := states + [Step(a, e)];
    StepKeeps(a, e);
    forall k | 0 <= k <= |events| && Inv(more[k])
      ensures Allowed(more[k], (events + [e])[k]) && more[k + 1] == Step(more[k], (events + [e])[k])
    {
      if k < |events| {
        assert more[k] == states[k] && more[k + 1] == states[k + 1] && (events + [e])[k] == events[k];
      }
    }
    assert IsRun(more, events + [e]);
  }

  lemma ConnectedNew(limit: nat) returns (a: Adapter)
    ensures Inv(a) && Reaches(limit, [Reconnected(Connected)], a)
    ensures a == Start(limit).(link := Connected)
  {
    assert IsRun([Start(limit)], []);
    ReachesNext(limit, [], Start(limit), Reconnected(Connected));
    assert [] + [Reconnected(Connected)] == [Reconnected(Connected)];
    a := Connect(Start(limit), Connected);
  }

  lemma SentOnNew(limit: nat, m: Msg) returns (a: Adapter)
    requires limit > 0 && m.data != []
    ensures Inv(a) && Reaches(limit, [Reconnected(Connected), Invoked(m, [Took(|m.data|)])], a)
    ensures a.requestMsg == Some(m) && a.link == Connected && m.id in a.queue.data
  {
    var b := ConnectedNew(limit);
    var up, sent := Reconnected(Connected), Invoked(m, [Took(|m.data|)]);
    ReachesNext(limit, [up], b, sent);
    assert [up] + [sent] == [up, sent];
    a := Step(b, sent);
    assert Write(m.data, [Took(|m.data|)]) == (RetOk, []);
  }

  lemma LostAndBack(limit: nat, events: seq<Event>, a: Adapter)
    requires Reaches(limit, events, a) && Inv(a)
    ensures Reaches(limit, events + [Closed, Reconnected(Connected)], Connect(Close(a), Connected))
  {
    ReachesNext(limit, events, a, Closed);
    ReachesNext(limit, events + [Closed], Close(a), Reconnected(Connected));
    assert events + [Closed] + [Reconnected(Connected)] == events + [Closed, Reconnected(Connected)];
  }

  /** A run that gets there: connected, a request sent whole, the connection closed, and connected again. */
  lemma GetsLost(limit: nat, m: Msg) returns (a: Adapter)
    requires limit > 0 && m.data != []
    ensures Reaches(limit, [Reconnected(Connected), Invoked(m, [Took(|m.data|)]), Closed, Reconnected(Connected)], a)
    ensures Lost(a, m) && a.link == Connected && m.id in a.queue.data
  {
    a := SentOnNew(limit, m);
    var events := [Reconnected(Connected), Invoked(m, [Took(|m.data|)])];
    LostAndBack(limit, events, a);
    a := Connect(Close(a), Connected);
    assert events + [Closed, Reconnected(Connected)]
        == [Reconnected(Connected), Invoked(m, [Took(|m.data|)]), Closed, Reconnected(Connected)];
  }
}
