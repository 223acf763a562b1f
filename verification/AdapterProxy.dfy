/** The serial mode of AdapterProxy and Transceiver as they are written, each method against the step
    of SerialModel it makes. */
module AdapterProxies {
  import opened Basics
  import opened Sockets
  import opened Deadlines
  import opened TimeoutQueues
  import opened SerialModel
  import M = SerialModel

  class AdapterProxy {
    const noSendQueueLimit: nat
    const timeoutQueue: TimeoutQueue<Msg>
    var requestMsg: Option<Msg>
    var link: Link
    var sendBuffer: seq<byte>
    ghost var asked: seq<Msg>
    ghost var answered: set<Msg>
    ghost var invoked: set<Msg>
    ghost var finished: seq<Done>

    ghost function Value(): Adapter
      reads this, timeoutQueue
    {
      Adapter(noSendQueueLimit, timeoutQueue.Value(), requestMsg, link, sendBuffer, asked, answered, invoked, finished)
    }

    constructor (limit: nat)
      ensures Value() == Start(limit) && fresh(timeoutQueue) && timeoutQueue.uniqId == 0
    {
      noSendQueueLimit := limit;
      timeoutQueue := new TimeoutQueue<Msg>();
      requestMsg, link, sendBuffer, asked, answered, invoked, finished := None, Unconnected, [], [], {}, {}, [];
    }

    method Close()
      modifies this
      ensures Value() == M.Close(old(Value()))
    {
      if link.Unconnected? {
        return;
      }
      link, sendBuffer, asked, answered := Unconnected, [], [], {};
    }

    /** The loop around send(): what the socket takes goes off the buffer. */
    method Flush(kernel: seq<Kernel>) returns (ret: Ret)
      requires sendBuffer != [] ==> link == Connected
      modifies this
      ensures ret == Write(old(sendBuffer), kernel).0
      ensures Value() == if ret.RetError? then M.Close(old(Value()))
                         else old(Value()).(sendBuffer := Write(old(sendBuffer), kernel).1)
    {
      var i := 0;
      while sendBuffer != []
        invariant i <= |kernel| && Write(sendBuffer, kernel[i..]) == Write(old(sendBuffer), kernel)
        invariant Value() == old(Value()).(sendBuffer := sendBuffer)
        decreases |kernel| - i
      {
        if i == |kernel| || kernel[i].Busy? {
          return RetFull;
        }
        if kernel[i].Broken? {
          Close();
          return RetError;
        }
        assert kernel[i..][0] == kernel[i] && kernel[i..][1..] == kernel[i + 1..];
        var n := if kernel[i].n < |sendBuffer| then kernel[i].n else |sendBuffer|;
        sendBuffer, i := sendBuffer[n..], i + 1;
      }
      ret := RetOk;
    }

    method SendRequest(m: Msg, kernel: seq<Kernel>) returns (ret: Ret)
      modifies this
      ensures (ret, Value()) == M.SendRequest(old(Value()), m, kernel)
    {
      if m.data == [] {
        return RetOk;
      }
      if sendBuffer != [] {
        return RetNotSend;
      }
      if link != Connected {
        return RetNotSend;
      }
      sendBuffer, asked := m.data, asked + [m];
      ret := Flush(kernel);
    }

    method FinishMsg(m: Msg, outcome: Outcome, trips: bool)
      modifies this
      ensures Value() == M.Finish(old(Value()), m, outcome, trips)
    {
      finished := finished + [Done(m, outcome)];
      if trips {
        Close();
      }
    }

    /** Transceiver::connect(): at says whether the connection is there at once. */
    method Connect(at: Link)
      requires at != Unconnected
      modifies this`link
      ensures Value() == M.Connect(old(Value()), at)
    {
      if link.Unconnected? {
        link := at;
      }
    }

    /** The socket of a connection under way has become writable. */
    method ConnectDone()
      modifies this`link
      ensures Value() == if old(link).Connecting? then old(Value()).(link := Connected) else old(Value())
    {
      if link.Connecting? {
        link := Connected;
      }
    }

    /** invoke(), of a request that has the id id: a call that does not come from rpc is given the queue's next
        id, and in serial mode every call is given another. None is drawn when the limit refuses the call. */
    method InvokeMsg(key: nat, id: int, data: seq<byte>, deadline: int, fromRpc: bool, kernel: seq<Kernel>)
      returns (m: Msg)
      requires Inv(Value()) && timeoutQueue.uniqId < UINT32 && forall x :: x in invoked ==> x.key != key
      modifies this, timeoutQueue
      ensures m.key == key && m.data == data && m.deadline == deadline
      ensures old(|timeoutQueue.send|) >= noSendQueueLimit ==> m.id == id && timeoutQueue.uniqId == old(timeoutQueue.uniqId)
      ensures old(|timeoutQueue.send|) < noSendQueueLimit ==>
                var last := old(timeoutQueue.uniqId);
                m.id == timeoutQueue.uniqId == NextId(if fromRpc then last else NextId(last))
      ensures Value() == M.Invoke(old(Value()), m, kernel) && Inv(Value())
    {
      if |timeoutQueue.send| >= noSendQueueLimit {
        m := Msg(key, id, data, deadline);
        InvokeKeeps(Value(), m, kernel);
        invoked := invoked + {m};
        FinishMsg(m, Failed, false);
        return;
      }
      if !fromRpc {
        var first := timeoutQueue.GenerateId();
      }
      var drawn := timeoutQueue.GenerateId();
      m := Msg(key, drawn, data, deadline);
      InvokeKeeps(Value(), m, kernel);
      invoked := invoked + {m};
      InvokeSerial(m, kernel);
    }

    /** invoke_connection_serial(). */
    method InvokeSerial(m: Msg, kernel: seq<Kernel>)
      requires Sound(Value().queue)
      modifies this, timeoutQueue
      ensures Value() == M.InvokeSerial(old(Value()), m, kernel) && timeoutQueue.uniqId == old(timeoutQueue.uniqId)
    {
      if requestMsg == None && timeoutQueue.send == [] {
        var ret := SendRequest(m, kernel);
        if ret == RetOk || ret == RetFull {
          PushSent(m);
          return;
        } else if ret == RetError {
          requestMsg := None;
          FinishMsg(m, Failed, false);
          return;
        }
      }
      PushUnsent(m);
    }

    method PushSent(m: Msg)
      requires Sound(Value().queue)
      modifies this, timeoutQueue
      ensures Value() == M.PushSent(old(Value()), m) && timeoutQueue.uniqId == old(timeoutQueue.uniqId)
    {
      requestMsg := Some(m);
      var flag := timeoutQueue.PushItem(m, m.id, m.deadline, true);
      if !flag {
        requestMsg := None;
        FinishMsg(m, Failed, false);
      }
    }

    method PushUnsent(m: Msg)
      requires Sound(Value().queue)
      modifies this, timeoutQueue
      ensures Value() == M.PushUnsent(old(Value()), m) && timeoutQueue.uniqId == old(timeoutQueue.uniqId)
    {
      var flag := timeoutQueue.PushItem(m, m.id, m.deadline, false);
      if !flag {
        FinishMsg(m, Failed, false);
      }
    }

    /** doInvoke_serial(). */
    method DoInvokeSerial(kernel: seq<Kernel>, trips: set<Msg>)
      requires Sound(Value().queue)
      modifies this, timeoutQueue
      ensures Value() == M.DoInvokeSerial(old(Value()), kernel, trips)
    {
      if requestMsg != None || timeoutQueue.send == [] {
        return;
      }
      var next := timeoutQueue.GetSend();
      var m := next.value;
      var ret := SendRequest(m, kernel);
      if ret == RetError {
        DropNext(m, trips);
      } else if ret == RetOk || ret == RetFull {
        requestMsg := Some(m);
        timeoutQueue.PopSend(false);
      }
    }

    /** The oldest waiting request could not be sent. */
    method DropNext(m: Msg, trips: set<Msg>)
      requires Sound(Value().queue) && timeoutQueue.send != []
      modifies this, timeoutQueue
      ensures old(timeoutQueue.send[|timeoutQueue.send| - 1]) in old(timeoutQueue.data)
      ensures Value() == M.Finish(old(Value()).(requestMsg := None, queue := old(Erase(timeoutQueue.Value(), timeoutQueue.send[|timeoutQueue.send| - 1]))),
                                  m, Failed, m in trips)
    {
      requestMsg := None;
      timeoutQueue.PopSend(true);
      FinishMsg(m, Failed, m in trips);
    }

    method DoRequest(flush: seq<Kernel>, kernel: seq<Kernel>, trips: set<Msg>)
      requires Inv(Value())
      modifies this, timeoutQueue
      ensures Value() == M.DoRequest(old(Value()), flush, kernel, trips) && Inv(Value())
    {
      DoRequestKeeps(Value(), flush, kernel, trips);
      if link.Unconnected? {
        return;
      }
      var ret := Flush(flush);
      if ret != RetOk {
        return;
      }
      if sendBuffer == [] {
        DoInvokeSerial(kernel, trips);
      }
    }

    /** finishInvoke_serial(), with its assertions. */
    method FinishInvokeSerial(rsp: Reply, trips: set<Msg>)
      requires Sound(Value().queue) && Named(Value().queue.data) && OnlyOneSent(Value().queue.data, requestMsg)
      requires Ledger(Value().queue.data, invoked, finished)
      modifies this, timeoutQueue
      ensures requestMsg == None
      ensures old(requestMsg).Some? ==> old(requestMsg).value !in Ended(old(finished))
      ensures old(requestMsg) == None ==> Value() == old(Value())
      ensures old(requestMsg).Some? ==> var m := old(requestMsg).value;
        Value() == M.Finish(old(Value().(queue := Erase(timeoutQueue.Value(), m.id), requestMsg := None)),
                            m, Answered(rsp), m in trips)
    {
      if requestMsg == None {
        return;
      }
      var m := requestMsg.value;
      var erased := timeoutQueue.EraseId(m.id);
      assert erased != None;
      assert requestMsg == erased;
      assert m !in Ended(finished);
      requestMsg := None;
      FinishMsg(m, Answered(rsp), m in trips);
    }

    /** doResponse(), at a complete packet: ret is what responseFunc makes of it. */
    method DoResponse(rsp: Reply, closing: bool, trips: set<Msg>)
      requires Inv(Value()) && Serves(Value(), rsp)
      modifies this, timeoutQueue
      ensures Value() == Respond(old(Value()), rsp, closing, trips) && Inv(Value())
    {
      AnswerMeetsRequest(Value(), rsp, closing, trips);
      answered := answered + {rsp.to};
      if closing {
        Close();
      }
      FinishInvokeSerial(rsp, trips);
    }

    method DoTimeout(now: int, trips: set<Msg>)
      requires Inv(Value())
      modifies this, timeoutQueue
      ensures Value() == M.DoTimeout(old(Value()), now, trips) && Inv(Value())
    {
      while true
        invariant Inv(Value()) && M.DoTimeout(Value(), now, trips) == M.DoTimeout(old(Value()), now, trips)
        decreases |timeoutQueue.time|
      {
        ghost var was := Value();
        ghost var time := timeoutQueue.time;
        if time != [] {
          assert time[0] in time;
          ExpireOneKeeps(was, trips);
        }
        var msg := timeoutQueue.Timeout(now);
        if msg == None {
          break;
        }
        Expire(msg.value, trips);
      }
    }

    method Expire(m: Msg, trips: set<Msg>)
      modifies this
      ensures var b := if old(requestMsg) == Some(m) then M.Close(old(Value()).(requestMsg := None)) else old(Value());
              Value() == M.Finish(b, m, TimedOut, m in trips)
    {
      if requestMsg == Some(m) {
        requestMsg := None;
        Close();
      }
      FinishMsg(m, TimedOut, m in trips);
    }
  }
}
