/** The client's queue of requests that wait for an answer: by id, by deadline, and, while they have
    not been sent, in a list that is filled at the front and emptied at the back. */
module TimeoutQueues {
  import opened Basics
  import opened Deadlines

  datatype Item<+T> = Item(ptr: T, hasSend: bool, deadline: int)

  datatype Queue<+T> = Queue(data: map<int, Item<T>>, time: seq<Entry>, send: seq<int>)

  /** The three structures agree: one time entry for each id, and the send list holds exactly the ids
      not sent, each once. */
  ghost predicate Sound<T>(q: Queue<T>) {
    && Ordered(q.time)
    && (forall e :: e in q.time ==> e.key in q.data && q.data[e.key].deadline == e.time)
    && (forall id :: id in q.data ==> Entry(q.data[id].deadline, id) in q.time)
    && Distinct(q.send)
    && (forall id :: id in q.send ==> id in q.data && !q.data[id].hasSend)
    && (forall id :: id in q.data && !q.data[id].hasSend ==> id in q.send)
  }

  /** push(): refused exactly when the id is taken. */
  function Push<T>(q: Queue<T>, id: int, ptr: T, deadline: int, hasSend: bool): Option<Queue<T>> {
    if id in q.data then None
    else Some(Queue(q.data[id := Item(ptr, hasSend, deadline)], Insert(q.time, Entry(deadline, id)),
                    if hasSend then q.send else [id] + q.send))
  }

  function Erase<T>(q: Queue<T>, id: int): Queue<T>
    requires id in q.data && Entry(q.data[id].deadline, id) in q.time && (!q.data[id].hasSend ==> id in q.send)
  {
    Queue(q.data - {id}, Without(q.time, Entry(q.data[id].deadline, id)),
          if q.data[id].hasSend then q.send else Without(q.send, id))
  }

  /** popSend(false): the oldest request not sent becomes one that has been. */
  function Sent<T>(q: Queue<T>): Queue<T>
    requires q.send != [] && q.send[|q.send| - 1] in q.data
  {
    var id := q.send[|q.send| - 1];
    Queue(q.data[id := q.data[id].(hasSend := true)], q.time, q.send[..|q.send| - 1])
  }

  predicate Expired<T>(q: Queue<T>, now: int) {
    q.time != [] && q.time[0].time <= now
  }

  lemma WithoutMembers(ids: seq<int>, id: int)
    requires Distinct(ids) && id in ids
    ensures Distinct(Without(ids, id)) && forall x :: x in Without(ids, id) <==> x in ids && x != id
  {
    var k := IndexOf(ids, id);
    WithoutAt(ids, id);
    var a, b := ids[..k], ids[k + 1..];
    assert ids == a + ([id] + b);
    DistinctCut(a, id, b);
  }

  lemma DistinctCut(a: seq<int>, x: int, b: seq<int>)
    requires Distinct(a + ([x] + b))
    ensures Distinct(a + b) && forall y :: y in a + b <==> y in a + ([x] + b) && y != x
  {
    var s, t := a + ([x] + b), a + b;
    assert s[|a|] == x;
    forall i | 0 <= i < |t| ensures t[i] == s[if i < |a| then i else i + 1] {}
    forall y ensures y in t <==> y in s && y != x {
      if y in t {
        var i :| 0 <= i < |t| && t[i] == y;
        assert s[if i < |a| then i else i + 1] == y;
      }
    }
  }

  lemma PushSound<T>(q: Queue<T>, id: int, ptr: T, deadline: int, hasSend: bool)
    requires Sound(q) && id !in q.data
    ensures Sound(Push(q, id, ptr, deadline, hasSend).value)
  {
    InsertOrdered(q.time, Entry(deadline, id));
    InsertMembers(q.time, Entry(deadline, id));
    if !hasSend {
      InFront(id, q.send);
    }
  }

  lemma InFront(id: int, send: seq<int>)
    requires Distinct(send) && id !in send
    ensures Distinct([id] + send) && forall x :: x in [id] + send <==> x == id || x in send
  {
  }

  lemma EraseSound<T>(q: Queue<T>, id: int)
    requires Sound(q) && id in q.data
    ensures Sound(Erase(q, id))
  {
    RemoveOrdered(q.time, Entry(q.data[id].deadline, id));
    if !q.data[id].hasSend {
      WithoutMembers(q.send, id);
    }
  }

  lemma SentSound<T>(q: Queue<T>)
    requires Sound(q) && q.send != []
    ensures q.send[|q.send| - 1] in q.data && Sound(Sent(q))
  {
    var last, rest := q.send[|q.send| - 1], q.send[..|q.send| - 1];
    assert last in q.send;
    forall x ensures x in q.send <==> x in rest || x == last {
      assert q.send == rest + [last];
    }
    assert last !in rest;
  }

  lemma EraseLast<T>(q: Queue<T>)
    requires Sound(q) && q.send != []
    ensures var id := q.send[|q.send| - 1];
            && id in q.data && Sound(Erase(q, id))
            && Erase(q, id) == Queue(q.data - {id}, Without(q.time, Entry(q.data[id].deadline, id)), q.send[..|q.send| - 1])
  {
    var id := q.send[|q.send| - 1];
    assert id in q.send;
    EraseSound(q, id);
    assert IndexOf(q.send, id) == |q.send| - 1;
    WithoutAt(q.send, id);
  }

  /** When the earliest entry is in the future, so is every request's deadline; otherwise it names a
      request with the earliest deadline. */
  lemma EarliestFirst<T>(q: Queue<T>, now: int)
    requires Sound(q)
    ensures Expired(q, now) <==> exists id :: id in q.data && q.data[id].deadline <= now
    ensures q.time != [] ==> q.time[0].key in q.data
    ensures q.time != [] ==> forall id :: id in q.data ==> q.time[0].time <= q.data[id].deadline
    ensures q.time != [] ==> q.data[q.time[0].key].deadline == q.time[0].time
  {
    forall id | id in q.data ensures q.time != [] && q.time[0].time <= q.data[id].deadline {
      var e := Entry(q.data[id].deadline, id);
      var k :| 0 <= k < |q.time| && q.time[k] == e;
    }
    if q.time != [] {
      assert q.time[0] in q.time;
    }
  }

  /** The id after the one drawn last: the next of the 32-bit numbers, never 0. */
  function NextId(last: nat): (id: nat)
    ensures last < UINT32 ==> 0 < id < UINT32
  {
    if last == 0xffff_ffff then 1 else last + 1
  }

  /** The id drawn k times after last. */
  function Nth(last: nat, k: nat): nat {
    if k == 0 then last else NextId(Nth(last, k - 1))
  }

  lemma {:induction false} NthIs(last: nat, k: nat)
    requires 0 < last < UINT32
    ensures Nth(last, k) == (last - 1 + k) % (UINT32 - 1) + 1
  {
    if k > 0 {
      NthIs(last, k - 1);
      Around(last - 1 + (k - 1));
    }
  }

  lemma Around(n: nat)
    ensures (n + 1) % (UINT32 - 1) == if n % (UINT32 - 1) == UINT32 - 2 then 0 else n % (UINT32 - 1) + 1
  {
  }

  /** The ids go round all the numbers from 1 to 2^32 - 1, so that of so many in a row no two are the same. */
  lemma IdsDiffer(last: nat, i: nat, j: nat)
    requires 0 < last < UINT32 && i < j < i + UINT32 - 1
    ensures Nth(last, i) != Nth(last, j) && 0 < Nth(last, i) < UINT32
  {
    NthIs(last, i);
    NthIs(last, j);
    SameResidue(last - 1 + i, last - 1 + j);
  }

  lemma SameResidue(m: nat, n: nat)
    requires m < n < m + UINT32 - 1
    ensures m % (UINT32 - 1) != n % (UINT32 - 1)
  {
    var a, b := m / (UINT32 - 1), n / (UINT32 - 1);
    assert m == a * (UINT32 - 1) + m % (UINT32 - 1) && n == b * (UINT32 - 1) + n % (UINT32 - 1);
  }

  class TimeoutQueue<T> {
    var uniqId: nat
    var data: map<int, Item<T>>
    var time: seq<Entry>
    var send: seq<int>

    function Value(): Queue<T>
      reads this
    {
      Queue(data, time, send)
    }

    constructor ()
      ensures Value() == Queue(map[], [], []) && uniqId == 0
    {
      uniqId, data, time, send := 0, map[], [], [];
    }

    /** generateId(). */
    method GenerateId() returns (i: nat)
      requires uniqId < UINT32
      modifies this`uniqId
      ensures uniqId == i == NextId(old(uniqId))
    {
      uniqId := (uniqId + 1) % UINT32;
      i := uniqId;
      if i == 0 {
        uniqId := (uniqId + 1) % UINT32;
        i := uniqId;
      }
    }

    method GetSend() returns (t: Option<T>)
      requires Sound(Value())
      ensures send == [] ==> t == None
      ensures send != [] ==> send[|send| - 1] in data && t == Some(data[send[|send| - 1]].ptr)
    {
      if send == [] {
        return None;
      }
      var id := send[|send| - 1];
      assert id in send;
      assert !data[id].hasSend;
      t := Some(data[id].ptr);
    }

    method PopSend(del: bool)
      requires Sound(Value()) && send != []
      modifies this`data, this`time, this`send
      ensures Sound(Value())
      ensures old(send[|send| - 1]) in old(data)
      ensures Value() == if del then old(Erase(Value(), send[|send| - 1])) else old(Sent(Value()))
    {
      var id := send[|send| - 1];
      if del {
        EraseLast(Value());
        data, time, send := data - {id}, Without(time, Entry(data[id].deadline, id)), send[..|send| - 1];
      } else {
        SentSound(Value());
        data, send := data[id := data[id].(hasSend := true)], send[..|send| - 1];
      }
    }

    method PushItem(ptr: T, id: int, timeout: int, hasSend: bool) returns (ok: bool)
      requires Sound(Value())
      modifies this`data, this`time, this`send
      ensures Sound(Value()) && ok == (id !in old(data))
      ensures Value() == if ok then Push(old(Value()), id, ptr, timeout, hasSend).value else old(Value())
    {
      if id in data {
        return false;
      }
      PushSound(Value(), id, ptr, timeout, hasSend);
      data := data[id := Item(ptr, hasSend, timeout)];
      time := Insert(time, Entry(timeout, id));
      if !hasSend {
        send := [id] + send;
      }
      ok := true;
    }

    method EraseId(id: int) returns (t: Option<T>)
      requires Sound(Value())
      modifies this`data, this`time, this`send
      ensures Sound(Value())
      ensures id !in old(data) ==> t == None && Value() == old(Value())
      ensures id in old(data) ==> t == Some(old(data)[id].ptr) && Value() == old(Erase(Value(), id))
    {
      if id !in data {
        return None;
      }
      EraseSound(Value(), id);
      t := Some(data[id].ptr);
      if !data[id].hasSend {
        send := Without(send, id);
      }
      time := Without(time, Entry(data[id].deadline, id));
      data := data - {id};
    }

    /** timeout(): takes out a request with the earliest deadline, if that has come. */
    method Timeout(now: int) returns (t: Option<T>)
      requires Sound(Value())
      modifies this`data, this`time, this`send
      ensures Sound(Value())
      ensures !old(Expired(Value(), now)) ==> t == None && Value() == old(Value())
      ensures old(Expired(Value(), now)) ==>
                && old(time[0].key in data) && t == old(Some(data[time[0].key].ptr))
                && Value() == old(Erase(Value(), time[0].key))
    {
      if time == [] || time[0].time > now {
        return None;
      }
      assert time[0] in time;
      t := EraseId(time[0].key);
    }
  }
}
