/** The counter of packets received and not yet handled, which several network threads test and add to
    and several handlers take from, one atomic step at a time. */
module RecvCounters {

  /** A packet for the handlers: close marks the notification of a closed connection. */
  datatype Item = Item(close: bool, overload: bool)

  /** A network thread: between packets, about to insert one that has passed the test, or between
      adding to the counter and pushing on the queue. */
  datatype Net = Idle | Accepted(overload: bool) | Counted(item: Item)

  /** A handler: waiting, or between popping a packet and taking it off the counter. */
  datatype Handler = Waiting | Popped(item: Item)

  /** queue stands for all the queues; a handler may take from any place, so from the front of any. */
  datatype State = State(capacity: int, count: int, nets: seq<Net>, handlers: seq<Handler>, queue: seq<Item>)

  datatype Verdict = Accept | Overload | Discard

  /** isOverloadorDiscard(): without a capacity everything is accepted; with one, packets are marked when
      more than four fifths of it are in use, though not when all of it is, and thrown away beyond it. */
  function Judge(count: int, capacity: int): Verdict {
    if count > capacity * 4 / 5 && count < capacity && capacity > 0 then Overload
    else if count > capacity && capacity > 0 then Discard
    else Accept
  }

  /** With a capacity, a packet is thrown away when the counter is beyond it, and otherwise marked when it is
      more than four fifths of it and not all of it. */
  lemma JudgeMeans(count: int, capacity: int)
    ensures Judge(count, capacity) == Discard <==> capacity > 0 && count > capacity
    ensures Judge(count, capacity) == Overload <==> 5 * count > 4 * capacity && count < capacity && capacity > 0
  {
    assert capacity * 4 == 5 * (capacity * 4 / 5) + capacity * 4 % 5;
  }

  // ----- counting -----

  function Tally<T>(s: seq<T>, p: T -> bool): (n: nat)
    ensures n <= |s|
  {
    if s == [] then 0 else Tally(s[..|s| - 1], p) + if p(s[|s| - 1]) then 1 else 0
  }

  function One(b: bool): int {
    if b then 1 else 0
  }

  lemma {:induction false} TallySplit<T>(a: seq<T>, b: seq<T>, p: T -> bool)
    ensures Tally(a + b, p) == Tally(a, p) + Tally(b, p)
  {
    if b == [] {
      assert a + b == a;
    } else {
      assert (a + b)[..|a + b| - 1] == a + b[..|b| - 1];
      TallySplit(a, b[..|b| - 1], p);
    }
  }

  lemma TallyOne<T>(x: T, p: T -> bool)
    ensures Tally([x], p) == One(p(x))
  {
    assert [x][..0] == [];
  }

  lemma TallyCut<T>(a: seq<T>, x: T, b: seq<T>, p: T -> bool)
    ensures Tally(a + [x] + b, p) == Tally(a, p) + One(p(x)) + Tally(b, p)
  {
    TallySplit(a + [x], b, p);
    TallySplit(a, [x], p);
    TallyOne(x, p);
  }

  lemma TallyUpdate<T>(s: seq<T>, i: nat, x: T, p: T -> bool)
    requires i < |s|
    ensures Tally(s[i := x], p) == Tally(s, p) - One(p(s[i])) + One(p(x))
  {
    var a, b := s[..i], s[i + 1..];
    assert s == a + [s[i]] + b && s[i := x] == a + [x] + b;
    TallyCut(a, s[i], b, p);
    TallyCut(a, x, b, p);
  }

  lemma TallyTaken<T>(a: seq<T>, x: T, b: seq<T>, p: T -> bool)
    ensures Tally(a + b, p) == Tally(a + [x] + b, p) - One(p(x))
  {
    TallyCut(a, x, b, p);
    TallySplit(a, b, p);
  }

  // ----- steps -----

  datatype Event =
    | Test(i: nat)
    | Count(i: nat)
    | CountClose(i: nat)
    | Push(i: nat)
    | Pop(j: nat, k: nat)
    | Uncount(j: nat)

  predicate Enabled(s: State, e: Event) {
    match e
    case Test(i) => i < |s.nets| && s.nets[i].Idle?
    case Count(i) => i < |s.nets| && s.nets[i].Accepted?
    case CountClose(i) => i < |s.nets| && s.nets[i].Idle?
    case Push(i) => i < |s.nets| && s.nets[i].Counted?
    case Pop(j, k) => j < |s.handlers| && s.handlers[j].Waiting? && k < |s.queue|
    case Uncount(j) => j < |s.handlers| && s.handlers[j].Popped?
  }

  function Step(s: State, e: Event): State
    requires Enabled(s, e)
  {
    match e
    case Test(i) =>
      (match Judge(s.count, s.capacity)
       case Accept => s.(nets := s.nets[i := Accepted(false)])
       case Overload => s.(nets := s.nets[i := Accepted(true)])
       case Discard => s)
    case Count(i) => s.(count := s.count + 1, nets := s.nets[i := Counted(Item(false, s.nets[i].overload))])
    case CountClose(i) => s.(count := s.count + 1, nets := s.nets[i := Counted(Item(true, false))])
    case Push(i) => s.(nets := s.nets[i := Idle], queue := s.queue + [s.nets[i].item])
    case Pop(j, k) =>
      s.(handlers := s.handlers[j := Popped(s.queue[k])], queue := s.queue[..k] + s.queue[k + 1..])
    case Uncount(j) => s.(count := s.count - 1, handlers := s.handlers[j := Waiting])
  }

  // ----- the invariant -----

  predicate IsCounted(n: Net) { n.Counted? }

  predicate IsAccepted(n: Net) { n.Accepted? }

  predicate IsPopped(h: Handler) { h.Popped? }

  predicate CountedClose(n: Net) { n.Counted? && n.item.close }

  predicate PoppedClose(h: Handler) { h.Popped? && h.item.close }

  predicate IsClose(x: Item) { x.close }

  /** The close notifications that are in the counter. */
  function Closes(s: State): nat {
    Tally(s.queue, IsClose) + Tally(s.nets, CountedClose) + Tally(s.handlers, PoppedClose)
  }

  /** The counter is what is queued and what threads are moving in or out; and beyond the capacity
      there is at most one packet for each network thread, and the close notifications. */
  predicate Inv(s: State) {
    && s.count == |s.queue| + Tally(s.nets, IsCounted) + Tally(s.handlers, IsPopped)
    && (s.capacity > 0 ==> s.count + Tally(s.nets, IsAccepted) <= s.capacity + |s.nets| + Closes(s))
  }

  lemma NetStep(s: State, i: nat, n: Net)
    requires i < |s.nets|
    ensures var t := s.nets[i := n];
            && Tally(t, IsCounted) == Tally(s.nets, IsCounted) - One(s.nets[i].Counted?) + One(n.Counted?)
            && Tally(t, IsAccepted) == Tally(s.nets, IsAccepted) - One(s.nets[i].Accepted?) + One(n.Accepted?)
            && Tally(t, CountedClose) ==
               Tally(s.nets, CountedClose) - One(CountedClose(s.nets[i])) + One(CountedClose(n))
  {
    TallyUpdate(s.nets, i, n, IsCounted);
    TallyUpdate(s.nets, i, n, IsAccepted);
    TallyUpdate(s.nets, i, n, CountedClose);
  }

  lemma HandlerStep(s: State, j: nat, h: Handler)
    requires j < |s.handlers|
    ensures var t := s.handlers[j := h];
            && Tally(t, IsPopped) == Tally(s.handlers, IsPopped) - One(s.handlers[j].Popped?) + One(h.Popped?)
            && Tally(t, PoppedClose) ==
               Tally(s.handlers, PoppedClose) - One(PoppedClose(s.handlers[j])) + One(PoppedClose(h))
  {
    TallyUpdate(s.handlers, j, h, IsPopped);
    TallyUpdate(s.handlers, j, h, PoppedClose);
  }

  lemma NetKeeps(s: State, e: Event)
    requires Inv(s) && Enabled(s, e) && (e.Test? || e.Count? || e.CountClose?)
    ensures Inv(Step(s, e))
  {
    NetStep(s, e.i, Step(s, e).nets[e.i]);
  }

  lemma PushKeeps(s: State, i: nat)
    requires Inv(s) && Enabled(s, Push(i))
    ensures Inv(Step(s, Push(i)))
  {
    NetStep(s, i, Idle);
    TallySplit(s.queue, [s.nets[i].item], IsClose);
    TallyOne(s.nets[i].item, IsClose);
  }

  lemma HandlerKeeps(s: State, e: Event)
    requires Inv(s) && Enabled(s, e) && (e.Pop? || e.Uncount?)
    ensures Inv(Step(s, e))
  {
    HandlerStep(s, e.j, Step(s, e).handlers[e.j]);
    if e.Pop? {
      var a, x, b := s.queue[..e.k], s.queue[e.k], s.queue[e.k + 1..];
      assert s.queue == a + [x] + b;
      TallyTaken(a, x, b, IsClose);
    }
  }

  lemma StepKeeps(s: State, e: Event)
    requires Inv(s) && Enabled(s, e)
    ensures Inv(Step(s, e)) && |Step(s, e).nets| == |s.nets|
  {
    match e {
      case Push(i) => PushKeeps(s, i);
      case Pop(_, _) => HandlerKeeps(s, e);
      case Uncount(_) => HandlerKeeps(s, e);
      case _ => NetKeeps(s, e);
    }
  }

  predicate Legal(s: State, events: seq<Event>)
    decreases |events|
  {
    events == [] || (Enabled(s, events[0]) && Legal(Step(s, events[0]), events[1..]))
  }

  function After(s: State, events: seq<Event>): State
    requires Legal(s, events)
    decreases |events|
  {
    if events == [] then s else After(Step(s, events[0]), events[1..])
  }

  lemma {:induction false} RunKeeps(s: State, events: seq<Event>)
    requires Inv(s) && Legal(s, events)
    ensures Inv(After(s, events)) && |After(s, events).nets| == |s.nets| && After(s, events).capacity == s.capacity
    decreases |events|
  {
    if events != [] {
      StepKeeps(s, events[0]);
      RunKeeps(Step(s, events[0]), events[1..]);
    }
  }

  function Start(capacity: int, n: nat, h: nat): State {
    State(capacity, 0, seq(n, _ => Idle), seq(h, _ => Waiting), [])
  }

  lemma {:induction false} NoneTallied<T>(s: seq<T>, p: T -> bool)
    requires forall k :: 0 <= k < |s| ==> !p(s[k])
    ensures Tally(s, p) == 0
  {
    if s != [] {
      NoneTallied(s[..|s| - 1], p);
    }
  }

  lemma StartHolds(capacity: int, n: nat, h: nat)
    ensures Inv(Start(capacity, n, h)) && Closes(Start(capacity, n, h)) == 0
  {
    var s := Start(capacity, n, h);
    NoneTallied(s.nets, IsCounted);
    NoneTallied(s.nets, IsAccepted);
    NoneTallied(s.nets, CountedClose);
    NoneTallied(s.handlers, IsPopped);
    NoneTallied(s.handlers, PoppedClose);
  }

  /** No thread is between the counter and the queue. */
  predicate Quiet(s: State) {
    (forall i :: 0 <= i < |s.nets| ==> !s.nets[i].Counted?) && (forall j :: 0 <= j < |s.handlers| ==> s.handlers[j].Waiting?)
  }

  /** In every run the counter is at least what is queued, so never below zero, and equal to it when no
      thread is in the middle of something; and with a capacity and no close notification about it is
      at most the capacity and one for each network thread. */
  lemma CounterInEveryRun(capacity: int, n: nat, h: nat, events: seq<Event>)
    requires Legal(Start(capacity, n, h), events)
    ensures var s := After(Start(capacity, n, h), events);
            && s.count >= |s.queue|
            && (Quiet(s) ==> s.count == |s.queue|)
            && (capacity > 0 ==> s.count <= capacity + n + Closes(s))
  {
    StartHolds(capacity, n, h);
    RunKeeps(Start(capacity, n, h), events);
    var s := After(Start(capacity, n, h), events);
    if Quiet(s) {
      NoneTallied(s.nets, IsCounted);
      NoneTallied(s.handlers, IsPopped);
    }
  }

  // ----- the bound is reached -----

  lemma {:induction false} AfterBoth(s: State, a: seq<Event>, b: seq<Event>)
    requires Legal(s, a) && Legal(After(s, a), b)
    ensures Legal(s, a + b) && After(s, a + b) == After(After(s, a), b)
    decreases |a|
  {
    if a == [] {
      assert a + b == b;
    } else {
      assert (a + b)[0] == a[0] && (a + b)[1..] == a[1..] + b;
      AfterBoth(Step(s, a[0]), a[1..], b);
    }
  }

  lemma OneEvent(s: State, e: Event)
    requires Enabled(s, e)
    ensures Legal(s, [e]) && After(s, [e]) == Step(s, e)
  {
    assert [e][1..] == [];
  }

  /** From a state where the counter is at the capacity and k threads are idle, those threads, all testing
      before any of them counts, bring it to k above. */
  lemma {:induction false} AllTestFirst(s: State, k: nat) returns (events: seq<Event>)
    requires s.capacity > 0 && s.count == s.capacity && k <= |s.nets| && forall i :: 0 <= i < k ==> s.nets[i].Idle?
    ensures Legal(s, events) && After(s, events).count == s.capacity + k && After(s, events).capacity == s.capacity
    ensures |After(s, events).nets| == |s.nets|
    ensures forall i :: k <= i < |s.nets| ==> After(s, events).nets[i] == s.nets[i]
    decreases k
  {
    if k == 0 {
      events := [];
    } else {
      var i := k - 1;
      var t := Step(s, Test(i));
      assert t.nets[i] == Accepted(false);
      var rest := AllTestFirst(t, i);
      OneEvent(After(t, rest), Count(i));
      AfterBoth(t, rest, [Count(i)]);
      events := [Test(i)] + (rest + [Count(i)]);
      assert events[0] == Test(i) && events[1..] == rest + [Count(i)];
    }
  }

  /** One thread takes a packet in, undisturbed: it is queued, marked when the counter was over four fifths. */
  lemma TakeIn(s: State) returns (events: seq<Event>)
    requires 0 < |s.nets| && s.nets[0].Idle? && 0 <= s.count < s.capacity
    ensures Legal(s, events)
    ensures After(s, events) == s.(count := s.count + 1, queue := s.queue + [Item(false, 5 * s.count > 4 * s.capacity)])
  {
    JudgeMeans(s.count, s.capacity);
    var a := Step(s, Test(0));
    assert a.nets[0].Accepted?;
    var b := Step(a, Count(0));
    var c := Step(b, Push(0));
    assert c.nets == s.nets;
    events := [Test(0), Count(0), Push(0)];
    assert events[1..] == [Count(0), Push(0)] && events[1..][1..] == [Push(0)] && events[1..][1..][1..] == [];
  }

  /** And so it does the notification that a connection is closed, whatever the counter is. */
  lemma CloseIsTakenIn(s: State) returns (events: seq<Event>)
    requires 0 < |s.nets| && s.nets[0].Idle?
    ensures Legal(s, events)
    ensures After(s, events) == s.(count := s.count + 1, queue := s.queue + [Item(true, false)])
  {
    var c := Step(Step(s, CountClose(0)), Push(0));
    assert c.nets == s.nets;
    events := [CountClose(0), Push(0)];
    assert events[1..] == [Push(0)] && events[1..][1..] == [];
  }

  lemma {:induction false} FillUp(s: State, m: nat) returns (events: seq<Event>)
    requires 0 < |s.nets| && s.nets[0].Idle? && s.count == 0 && m <= s.capacity
    ensures Legal(s, events) && var t := After(s, events); t == s.(count := m, queue := t.queue)
    decreases m
  {
    if m == 0 {
      events := [];
    } else {
      events := FillUp(s, m - 1);
      var more := TakeIn(After(s, events));
      AfterBoth(s, events, more);
      events := events + more;
    }
  }

  /** The bound cannot be improved: for every capacity and number of threads there is a run from the start
      in which the counter gets as high. */
  lemma BoundReached(capacity: int, n: nat, h: nat) returns (events: seq<Event>)
    requires capacity > 0 && n > 0
    ensures Legal(Start(capacity, n, h), events) && After(Start(capacity, n, h), events).count == capacity + n
  {
    var s := Start(capacity, n, h);
    events := FillUp(s, capacity);
    var more := AllTestFirst(After(s, events), n);
    AfterBoth(s, events, more);
    events := events + more;
  }
}
