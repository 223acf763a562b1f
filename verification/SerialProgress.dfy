/** What each event does to a serial connection, said in the fields before it: when a request is sent, waits,
    fails or times out. */
module SerialProgress {
  import opened Basics
  import opened Sockets
  import opened Deadlines
  import opened TimeoutQueues
  import opened SerialModel

  // ----- the socket -----

  /** The bytes a socket takes before the first result that is not a number of them, if it is offered as many. */
  function Takes(kernel: seq<Kernel>): nat {
    if kernel == [] || !kernel[0].Took? then 0 else kernel[0].n + Takes(kernel[1..])
  }

  /** The first result that is not a number of bytes is an error. */
  predicate Breaks(kernel: seq<Kernel>) {
    kernel != [] && (kernel[0].Broken? || (kernel[0].Took? && Breaks(kernel[1..])))
  }

  /** Sending hands over the bytes in order, as many as the socket takes; it fails only on an error before all
      are gone, and the rest stays in the buffer. */
  lemma {:induction false} WriteExact(buffer: seq<byte>, kernel: seq<Kernel>)
    ensures var n := Takes(kernel);
            Write(buffer, kernel) == if |buffer| <= n then (RetOk, [])
                                     else if Breaks(kernel) then (RetError, [])
                                     else (RetFull, buffer[n..])
  {
    if buffer != [] && kernel != [] && kernel[0].Took? {
      var n := kernel[0].n;
      WriteExact(buffer[if n < |buffer| then n else |buffer|..], kernel[1..]);
    }
  }

  /** All of the bytes go out, or the socket is busy before an error comes. */
  predicate Accepts(bytes: seq<byte>, kernel: seq<Kernel>) {
    |bytes| <= Takes(kernel) || !Breaks(kernel)
  }

  // ----- a waiting request is sent -----

  function Oldest(a: Adapter): Msg
    requires a.queue.send != [] && a.queue.send[|a.queue.send| - 1] in a.queue.data
  {
    a.queue.data[a.queue.send[|a.queue.send| - 1]].ptr
  }

  lemma OldestIsPending(a: Adapter)
    requires Inv(a) && a.queue.send != []
    ensures a.queue.send[|a.queue.send| - 1] in a.queue.data
    ensures Oldest(a).id == a.queue.send[|a.queue.send| - 1] && Pending(a.queue.data, Oldest(a))
  {
    var id := a.queue.send[|a.queue.send| - 1];
    assert id in a.queue.send;
    assert id in a.queue.data;
  }

  /** What becomes of the oldest waiting request when it is its turn. */
  ghost predicate Tried(a: Adapter, b: Adapter, m: Msg, kernel: seq<Kernel>) {
    && a.queue.send != [] && m.id in a.queue.data
    && if Accepts(m.data, kernel) then
         && b.requestMsg == Some(m) && b.link == Connected && b.asked == (if m.data == [] then a.asked else a.asked + [m])
         && b.sendBuffer == (if |m.data| <= Takes(kernel) then [] else m.data[Takes(kernel)..])
         && b.queue.send == a.queue.send[..|a.queue.send| - 1] && b.queue.time == a.queue.time
         && b.queue.data == a.queue.data[m.id := a.queue.data[m.id].(hasSend := true)]
         && b.finished == a.finished
       else
         && b.requestMsg == None && b.link == Unconnected && b.asked == [] && b.sendBuffer == []
         && b.queue.send == a.queue.send[..|a.queue.send| - 1] && b.queue.data == a.queue.data - {m.id}
         && b.finished == a.finished + [Done(m, Failed)]
  }

  /** When the socket of a connection is writable, nothing is in flight, and what is left in the buffer goes
      out, the oldest waiting request is sent, or fails with the connection. */
  lemma WritableSends(a: Adapter, flush: seq<Kernel>, kernel: seq<Kernel>, trips: set<Msg>)
    requires Inv(a) && a.link == Connected && a.requestMsg == None && a.queue.send != []
    requires |a.sendBuffer| <= Takes(flush)
    requires a.queue.send[|a.queue.send| - 1] in a.queue.data
    ensures Tried(a, Step(a, Writable(flush, kernel, trips)), Oldest(a), kernel)
  {
    var m := Oldest(a);
    OldestIsPending(a);
    WriteExact(a.sendBuffer, flush);
    WriteExact(m.data, kernel);
    EraseLast(a.queue);
  }

  /** What is in the buffer goes out first, as far as the socket takes it; while some of it is left, or a
      request is in flight, or the connection is not there yet, no other is sent. */
  lemma WritableFlushes(a: Adapter, flush: seq<Kernel>, kernel: seq<Kernel>, trips: set<Msg>)
    requires Inv(a) && !a.link.Unconnected?
    requires |a.sendBuffer| > Takes(flush) || a.requestMsg != None || a.queue.send == []
             || (a.link.Connecting? && a.queue.send[|a.queue.send| - 1] in a.queue.data && Oldest(a).data != [])
    ensures var b, n := Step(a, Writable(flush, kernel, trips)), Takes(flush);
            if |a.sendBuffer| > n && Breaks(flush) then
              b == a.(link := Unconnected, sendBuffer := [], asked := [], answered := {})
            else b == a.(sendBuffer := if |a.sendBuffer| <= n then [] else a.sendBuffer[n..])
  {
    WriteExact(a.sendBuffer, flush);
  }

  /** After an answer the next request has its turn as soon as the socket is writable. */
  lemma AnswerThenNext(a: Adapter, rsp: Reply, trips: set<Msg>, flush: seq<Kernel>, kernel: seq<Kernel>)
    requires Inv(a) && Serves(a, rsp) && rsp.to !in trips && |a.sendBuffer| <= Takes(flush)
    requires a.queue.send != [] && a.queue.send[|a.queue.send| - 1] in a.queue.data
    ensures var b := Step(a, Response(rsp, false, trips));
            Inv(b) && Tried(b, Step(b, Writable(flush, kernel, trips)), Oldest(a), kernel)
  {
    AnswerMeetsRequest(a, rsp, false, trips);
    OldestIsPending(a);
    var b := Step(a, Response(rsp, false, trips));
    assert a.queue.data[rsp.to.id].hasSend;
    assert b.queue.send == a.queue.send && b.queue.data == a.queue.data - {rsp.to.id};
    WritableSends(b, flush, kernel, trips);
  }

  // ----- an invocation -----

  /** The request is finished as failed, and nothing else changes. */
  ghost predicate FailedOnly(a: Adapter, b: Adapter, m: Msg) {
    b == a.(invoked := a.invoked + {m}, finished := a.finished + [Done(m, Failed)])
  }

  /** The request is the youngest that waits, unsent, until its deadline. */
  ghost predicate Queued(a: Adapter, b: Adapter, m: Msg) {
    && b == a.(invoked := a.invoked + {m}, queue := b.queue)
    && b.queue.send == [m.id] + a.queue.send
    && b.queue.data == a.queue.data[m.id := Item(m, false, m.deadline)]
    && (forall e :: e in b.queue.time <==> e in a.queue.time || e == Entry(m.deadline, m.id))
  }

  /** With the limit reached, or while it has to wait under an id that is taken, a request fails at once. */
  lemma InvokedRefused(a: Adapter, m: Msg, kernel: seq<Kernel>)
    requires Inv(a) && m !in a.invoked
    requires |a.queue.send| >= a.limit || ((a.requestMsg != None || a.queue.send != []) && m.id in a.queue.data)
    ensures FailedOnly(a, Step(a, Invoked(m, kernel)), m)
  {
  }

  /** Below the limit, with another in flight or waiting, or without a connection ready to take it, it waits. */
  lemma InvokedWaits(a: Adapter, m: Msg, kernel: seq<Kernel>)
    requires Inv(a) && m !in a.invoked && |a.queue.send| < a.limit && m.id !in a.queue.data
    requires a.requestMsg != None || a.queue.send != [] || (m.data != [] && (a.link != Connected || a.sendBuffer != []))
    ensures Queued(a, Step(a, Invoked(m, kernel)), m)
  {
    InsertMembers(a.queue.time, Entry(m.deadline, m.id));
  }

  /** With nothing in flight or waiting, on a connection that is ready, it is sent at once, or fails with the
      connection; with no bytes in it, it counts as sent on any. */
  lemma InvokedIsSent(a: Adapter, m: Msg, kernel: seq<Kernel>)
    requires Inv(a) && m !in a.invoked && 0 < a.limit && a.requestMsg == None && a.queue.send == []
    requires m.data == [] || (a.link == Connected && a.sendBuffer == [])
    ensures var b := Step(a, Invoked(m, kernel));
            && b.invoked == a.invoked + {m} && b.queue.send == []
            && if Accepts(m.data, kernel) then
                 && b.requestMsg == Some(m) && b.asked == (if m.data == [] then a.asked else a.asked + [m])
                 && b.link == a.link && b.answered == a.answered
                 && b.sendBuffer == (if m.data == [] then a.sendBuffer else if |m.data| <= Takes(kernel) then [] else m.data[Takes(kernel)..])
                 && b.queue.data == map[m.id := Item(m, true, m.deadline)] && b.finished == a.finished
               else
                 && b.requestMsg == None && b.link == Unconnected && b.asked == [] && b.sendBuffer == []
                 && b.queue.data == map[] && b.finished == a.finished + [Done(m, Failed)]
  {
    DirectQueueEmpty(a);
    WriteExact(m.data, kernel);
  }

  // ----- a connection comes -----

  /** A connection is there at once, or when its socket says so; one that is there or under way is no other. */
  lemma ConnectionComes(a: Adapter, at: Link)
    requires Inv(a)
    ensures Step(a, Reconnected(at)) == if a.link == Unconnected then a.(link := at) else a
    ensures Step(a, ConnectDone) == if a.link == Connecting then a.(link := Connected) else a
  {
  }

  // ----- the end of a request, and of a connection -----

  /** After a close the connection is gone, with all that was asked on it, and nothing else. */
  lemma ClosedMeans(a: Adapter)
    requires Inv(a)
    ensures var b := Step(a, Closed);
            && b.link == Unconnected && b.sendBuffer == [] && b.asked == []
            && (a.link != Unconnected ==> b.answered == {})
            && b.queue == a.queue && b.requestMsg == a.requestMsg && b.finished == a.finished && b.invoked == a.invoked
  {
  }

  /** A response that ends the connection, or on which the breaker trips, leaves it closed; another leaves it
      as it was. */
  lemma ResponseCloses(a: Adapter, rsp: Reply, closing: bool, trips: set<Msg>)
    requires Inv(a) && Serves(a, rsp)
    ensures var b := Step(a, Response(rsp, closing, trips));
            && b.link == (if closing || rsp.to in trips then Unconnected else Connected)
            && b.queue.send == a.queue.send && b.queue.data == a.queue.data - {rsp.to.id}
  {
    AnswerMeetsRequest(a, rsp, closing, trips);
    assert a.queue.data[rsp.to.id].hasSend;
  }

  ghost predicate Overdue(a: Adapter, m: Msg, now: int) {
    Pending(a.queue.data, m) && a.queue.data[m.id].deadline <= now
  }

  /** What a timeout check has done so far, or in all: of the requests that were due some are finished as
      timed out; the others are as they were. */
  ghost predicate TimedOutOf(a: Adapter, b: Adapter, now: int) {
    && a.finished <= b.finished
    && (forall k :: |a.finished| <= k < |b.finished| ==> b.finished[k].outcome == TimedOut && Overdue(a, b.finished[k].msg, now))
    && (forall m :: Pending(a.queue.data, m) && !Pending(b.queue.data, m) ==> Done(m, TimedOut) in b.finished)
    && (forall id :: id in b.queue.data ==> id in a.queue.data && b.queue.data[id] == a.queue.data[id])
    && b.invoked == a.invoked
  }

  lemma ExpireOneExact(a: Adapter, now: int, trips: set<Msg>)
    requires Inv(a) && Expired(a.queue, now)
    ensures TimedOutOf(a, ExpireOne(a, trips), now)
    ensures a.queue.time[0].key in a.queue.data
    ensures var m := a.queue.data[a.queue.time[0].key].ptr;
            ExpireOne(a, trips).link == if a.requestMsg == Some(m) || m in trips then Unconnected else a.link
  {
    assert a.queue.time[0] in a.queue.time;
    var id := a.queue.time[0].key;
    var m, b := a.queue.data[id].ptr, ExpireOne(a, trips);
    assert b.finished == a.finished + [Done(m, TimedOut)] && b.queue.data == a.queue.data - {id};
    assert b.finished[|a.finished|] == Done(m, TimedOut);
  }

  lemma ThenMore(a: Adapter, b: Adapter, c: Adapter, now: int)
    requires TimedOutOf(a, b, now) && TimedOutOf(b, c, now)
    ensures TimedOutOf(a, c, now)
  {
    forall k | |a.finished| <= k < |c.finished| ensures c.finished[k].outcome == TimedOut && Overdue(a, c.finished[k].msg, now) {
      if k < |b.finished| { assert c.finished[k] == b.finished[k]; }
    }
    forall m | Pending(a.queue.data, m) && !Pending(c.queue.data, m) ensures Done(m, TimedOut) in c.finished {
      if !Pending(b.queue.data, m) {
        var k :| 0 <= k < |b.finished| && b.finished[k] == Done(m, TimedOut);
        assert c.finished[k] == Done(m, TimedOut);
      }
    }
  }

  lemma {:induction false} TimeoutsExact(a: Adapter, now: int, trips: set<Msg>)
    requires Inv(a)
    ensures TimedOutOf(a, DoTimeout(a, now, trips), now)
    decreases |a.queue.time|
  {
    if Expired(a.queue, now) {
      assert a.queue.time[0] in a.queue.time;
      EraseSound(a.queue, a.queue.time[0].key);
      var b := ExpireOne(a, trips);
      ExpireOneExact(a, now, trips);
      ExpireOneKeeps(a, trips);
      TimeoutsExact(b, now, trips);
      ThenMore(a, b, DoTimeout(b, now, trips), now);
    }
  }

  /** A timeout check finishes exactly the requests whose deadline has come, as timed out, and leaves the
      others as they were. */
  lemma TickExact(a: Adapter, now: int, trips: set<Msg>, m: Msg)
    requires Inv(a) && Pending(a.queue.data, m)
    ensures var b := Step(a, Tick(now, trips));
            && TimedOutOf(a, b, now)
            && (m.deadline <= now ==> Done(m, TimedOut) in b.finished && !Pending(b.queue.data, m))
            && (m.deadline > now ==> m.id in b.queue.data && b.queue.data[m.id] == a.queue.data[m.id] && m !in Ended(b.finished))
  {
    var b := Step(a, Tick(now, trips));
    DoTimeoutKeeps(a, now, trips);
    TimeoutsExact(a, now, trips);
    assert a.queue.data[m.id].deadline == m.deadline;
  }
}
