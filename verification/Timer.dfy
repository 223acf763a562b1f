/** The timer: events by id, ids by fire time, and the batch of ids that the timer thread has taken out
    and is firing one by one. Posting and erasing come from any thread between its steps. */
module Timers {
  import opened Basics

  /** batch is what fireEvent() has not looked at yet, clock the time at which it was taken. The
      multisets record the run: ids posted, ids handed to the pool, and ids erase() took out. */
  datatype State = State(mapEvent: map<int, nat>, mapTimer: map<nat, set<int>>, batch: seq<int>, clock: nat,
                         posted: multiset<int>, fired: multiset<int>, erased: multiset<int>)

  const START := State(map[], map[], [], 0, multiset{}, multiset{}, multiset{})

  function At(mapTimer: map<nat, set<int>>, time: nat): set<int> {
    if time in mapTimer then mapTimer[time] else {}
  }

  function Post(s: State, id: int, fire: nat): State {
    s.(mapEvent := if id in s.mapEvent then s.mapEvent else s.mapEvent[id := fire],
       mapTimer := s.mapTimer[fire := At(s.mapTimer, fire) + {id}],
       posted := s.posted + multiset{id})
  }

  function Dropped(mapTimer: map<nat, set<int>>, time: nat, id: int): map<nat, set<int>> {
    if time !in mapTimer then mapTimer
    else if mapTimer[time] - {id} == {} then mapTimer - {time}
    else mapTimer[time := mapTimer[time] - {id}]
  }

  function Erase(s: State, id: int): State {
    if id !in s.mapEvent then s
    else s.(mapEvent := s.mapEvent - {id}, mapTimer := Dropped(s.mapTimer, s.mapEvent[id], id),
            erased := s.erased + multiset{id})
  }

  /** time is the first key of the ordered map. */
  predicate First(mapTimer: map<nat, set<int>>, time: nat) {
    time in mapTimer && forall t: nat :: t in mapTimer ==> time <= t
  }

  /** order is some order of the set. */
  ghost predicate Lists(order: seq<int>, ids: set<int>) {
    && Distinct(order)
    && (forall id :: id in order ==> id in ids)
    && (forall id :: id in ids ==> id in order)
  }

  /** The locked part of run(), when the first time has come. */
  function Take(s: State, now: nat, time: nat, order: seq<int>): State {
    s.(mapTimer := s.mapTimer - {time}, batch := order, clock := now)
  }

  /** One turn of fireEvent(). */
  function FireOne(s: State): State
    requires s.batch != []
  {
    var id := s.batch[0];
    if id in s.mapEvent
    then s.(mapEvent := s.mapEvent - {id}, batch := s.batch[1..], fired := s.fired + multiset{id})
    else s.(batch := s.batch[1..])
  }

  // ----- the invariant -----

  predicate Waits(mapTimer: map<nat, set<int>>, time: nat, id: int) {
    time in mapTimer && id in mapTimer[time]
  }

  /** Every event waits in exactly one place: the set of its fire time, or the batch, and then its
      time has come. */
  ghost predicate Placed(s: State) {
    && (forall t: nat, id :: Waits(s.mapTimer, t, id) ==> id in s.mapEvent && s.mapEvent[id] == t && id !in s.batch)
    && (forall t: nat :: t in s.mapTimer ==> s.mapTimer[t] != {})
    && (forall id :: id in s.mapEvent ==>
          Waits(s.mapTimer, s.mapEvent[id], id) || (id in s.batch && s.mapEvent[id] <= s.clock))
    && Distinct(s.batch)
  }

  /** Every posting has been fired or erased, once, or its event is still there. */
  ghost predicate Ledger(s: State) {
    forall id :: s.posted[id] == s.fired[id] + s.erased[id] + if id in s.mapEvent then 1 else 0
  }

  ghost predicate Inv(s: State) {
    Placed(s) && Ledger(s)
  }

  /** Of an event that is still in the timer, a post keeps the places only if it changes nothing. */
  lemma PostPlaced(s: State, id: int, fire: nat)
    requires Placed(s)
    ensures Placed(Post(s, id, fire)) <==> id !in s.batch && (id in s.mapEvent ==> s.mapEvent[id] == fire)
  {
    var t := Post(s, id, fire);
    assert Waits(t.mapTimer, fire, id);
    forall u: nat, x ensures Waits(t.mapTimer, u, x) <==> Waits(s.mapTimer, u, x) || (u == fire && x == id) {}
  }

  /** post() keeps the structures in agreement exactly when the event is not in the timer and its id is not
      in the batch being fired; ids are addresses, so one can be there although its event has been erased. */
  lemma PostKeepsIff(s: State, id: int, fire: nat)
    requires Inv(s)
    ensures Inv(Post(s, id, fire)) <==> id !in s.mapEvent && id !in s.batch
  {
    PostPlaced(s, id, fire);
    var t := Post(s, id, fire);
    assert t.posted[id] == s.posted[id] + 1;
    assert s.posted[id] == s.fired[id] + s.erased[id] + if id in s.mapEvent then 1 else 0;
  }

  /** An event that is posted while it is in the timer stays due when it was. */
  lemma PostedTwice(s: State, id: int, fire: nat)
    requires id in s.mapEvent
    ensures Post(s, id, fire).mapEvent == s.mapEvent
    ensures forall u: nat :: Waits(Post(s, id, fire).mapTimer, u, id) <==> Waits(s.mapTimer, u, id) || u == fire
  {
  }

  /** A new event waits for its time, under that time only, and the others are where they were. */
  lemma PostedWaits(s: State, id: int, fire: nat)
    requires Inv(s) && id !in s.mapEvent
    ensures var t := Post(s, id, fire);
            && id in t.mapEvent && t.mapEvent[id] == fire
            && (forall u: nat :: Waits(t.mapTimer, u, id) <==> u == fire)
            && (forall x :: x != id ==> (x in t.mapEvent <==> x in s.mapEvent))
            && (forall x :: x in s.mapEvent ==> t.mapEvent[x] == s.mapEvent[x])
            && (forall u: nat, x :: x != id ==> (Waits(t.mapTimer, u, x) <==> Waits(s.mapTimer, u, x)))
  {
    var t := Post(s, id, fire);
    forall u: nat, x ensures Waits(t.mapTimer, u, x) <==> Waits(s.mapTimer, u, x) || (u == fire && x == id) {}
  }

  lemma ErasePlaced(s: State, id: int)
    requires Placed(s)
    ensures Placed(Erase(s, id))
  {
    if id in s.mapEvent {
      var t, fire := Erase(s, id), s.mapEvent[id];
      forall u: nat, x ensures Waits(t.mapTimer, u, x) <==> Waits(s.mapTimer, u, x) && x != id {
        assert Waits(s.mapTimer, u, x) && x == id ==> u == fire;
        assert Waits(s.mapTimer, fire, x) && x != id ==> x in s.mapTimer[fire] - {id};
      }
    }
  }

  lemma EraseKeeps(s: State, id: int)
    requires Inv(s)
    ensures Inv(Erase(s, id))
  {
    ErasePlaced(s, id);
  }

  lemma TakePlaced(s: State, now: nat, time: nat, order: seq<int>)
    requires Placed(s) && s.batch == [] && time in s.mapTimer && time <= now && Lists(order, s.mapTimer[time])
    ensures Placed(Take(s, now, time, order))
  {
    var t := Take(s, now, time, order);
    forall u: nat, x ensures Waits(t.mapTimer, u, x) <==> Waits(s.mapTimer, u, x) && u != time {}
    forall x | x in order ensures Waits(s.mapTimer, time, x) {}
  }

  lemma TakeKeeps(s: State, now: nat, time: nat, order: seq<int>)
    requires Inv(s) && s.batch == [] && First(s.mapTimer, time) && time <= now && Lists(order, s.mapTimer[time])
    ensures Inv(Take(s, now, time, order)) && order != [] && Take(s, now, time, order).clock == now
  {
    TakePlaced(s, now, time, order);
    var some := SomeMember(s.mapTimer[time]);
  }

  lemma FirePlaced(s: State)
    requires Placed(s) && s.batch != []
    ensures Placed(FireOne(s))
    ensures s.batch[0] in s.mapEvent ==> s.mapEvent[s.batch[0]] <= s.clock
    ensures s.batch[0] !in FireOne(s).mapEvent && s.batch[0] !in FireOne(s).batch
  {
    var id, rest := s.batch[0], s.batch[1..];
    assert s.batch == [id] + rest;
    assert id in s.batch && id !in rest;
    forall x ensures x in s.batch <==> x == id || x in rest {}
  }

  /** An event is handed to the pool only when its time has come. */
  lemma FireOneKeeps(s: State)
    requires Inv(s) && s.batch != []
    ensures Inv(FireOne(s))
    ensures s.batch[0] in s.mapEvent ==> s.mapEvent[s.batch[0]] <= s.clock
    ensures s.batch[0] !in FireOne(s).mapEvent && s.batch[0] !in FireOne(s).batch
  {
    FirePlaced(s);
  }

  /** fireEvent() from here to its end, undisturbed. */
  function FireAll(s: State): State
    decreases |s.batch|
  {
    if s.batch == [] then s else FireAll(FireOne(s))
  }

  /** It fires each event of the batch that is still posted, once, and no other, in whatever state. */
  lemma {:induction false} FiredByBatch(s: State, id: int)
    ensures var t := FireAll(s);
            && t.batch == [] && t.mapTimer == s.mapTimer && t.clock == s.clock
            && t.fired[id] == s.fired[id] + (if id in s.batch && id in s.mapEvent then 1 else 0)
            && (id in t.mapEvent <==> id in s.mapEvent && id !in s.batch)
    decreases |s.batch|
  {
    if s.batch != [] {
      FiredByBatch(FireOne(s), id);
      assert s.batch == [s.batch[0]] + s.batch[1..];
    }
  }

  /** And the structures agree after it if they did before. */
  lemma {:induction false} BatchIsFired(s: State, id: int)
    requires Inv(s)
    ensures Inv(FireAll(s))
    ensures FireAll(s).fired[id] == s.fired[id] + if id in s.batch && id in s.mapEvent then 1 else 0
    ensures id in FireAll(s).mapEvent <==> id in s.mapEvent && id !in s.batch
    decreases |s.batch|
  {
    FiredByBatch(s, id);
    if s.batch != [] {
      FireOneKeeps(s);
      BatchIsFired(FireOne(s), id);
    }
  }

  /** The batch in flight fires the event, and its time is later than the batch's. */
  predicate FiredEarly(s: State, id: int, fire: nat) {
    FireAll(s).fired[id] > s.fired[id] && fire > s.clock
  }

  /** When a new event is fired before its time: exactly when its id is still in the batch being fired, so
      that it has the address of an event erased out of that batch, and its time is later than the batch's.
      It is fired once then, and leaves an entry behind under the time it should have waited for. */
  lemma PostedIsFiredEarlyIff(s: State, id: int, fire: nat)
    requires id !in s.mapEvent
    ensures var t := Post(s, id, fire);
            && t.clock == s.clock
            && FireAll(t).fired[id] == s.fired[id] + (if id in s.batch then 1 else 0)
            && (FiredEarly(t, id, fire) <==> id in s.batch && fire > s.clock)
            && (id in FireAll(t).mapEvent <==> id !in s.batch) && Waits(FireAll(t).mapTimer, fire, id)
  {
    FiredByBatch(Post(s, id, fire), id);
  }

  /** In whatever state, taking a time and firing its batch fires exactly the events with an entry under
      that time, so those that are due later exactly when somebody left an entry there. */
  lemma EntryIsFiredIff(s: State, now: nat, time: nat, order: seq<int>, id: int)
    requires time in s.mapTimer && Lists(order, s.mapTimer[time])
    ensures var t := FireAll(Take(s, now, time, order));
            t.fired[id] == s.fired[id] + if id in s.mapEvent && Waits(s.mapTimer, time, id) then 1 else 0
  {
    FiredByBatch(Take(s, now, time, order), id);
  }

  /** Taking a time that has come and firing the batch fires exactly the events of that time, each once. */
  lemma DueIsFired(s: State, now: nat, time: nat, order: seq<int>, id: int)
    requires Inv(s) && s.batch == [] && First(s.mapTimer, time) && time <= now && Lists(order, s.mapTimer[time])
    ensures var t := FireAll(Take(s, now, time, order));
            t.fired[id] == s.fired[id] + if id in s.mapEvent && s.mapEvent[id] == time then 1 else 0
  {
    TakeKeeps(s, now, time, order);
    BatchIsFired(Take(s, now, time, order), id);
    if id in s.mapEvent {
      assert Waits(s.mapTimer, s.mapEvent[id], id);
    }
    assert id in order ==> Waits(s.mapTimer, time, id);
  }

  /** When the first time has not come, nothing that waits is due. */
  lemma NothingDue(s: State, now: nat, id: int)
    requires Inv(s) && s.batch == [] && id in s.mapEvent
    requires forall t: nat :: t in s.mapTimer ==> t > now
    ensures s.mapEvent[id] > now
  {
    assert Waits(s.mapTimer, s.mapEvent[id], id);
  }

  // ----- runs -----

  datatype Event =
    | Posted(id: int, fire: nat)
    | Erased(id: int)
    | Taken(now: nat, time: nat, order: seq<int>)
    | FiredOne

  /** Posts are of events not in the timer, under ids the batch does not hold: new ones, or those of
      repeating events that post themselves again once they have been fired. */
  ghost predicate Allowed(s: State, e: Event) {
    match e
    case Posted(id, _) => id !in s.mapEvent && id !in s.batch
    case Erased(_) => true
    case Taken(now, time, order) =>
      s.batch == [] && First(s.mapTimer, time) && time <= now && Lists(order, s.mapTimer[time])
    case FiredOne => s.batch != []
  }

  ghost function Step(s: State, e: Event): State
    requires Allowed(s, e)
  {
    match e
    case Posted(id, fire) => Post(s, id, fire)
    case Erased(id) => Erase(s, id)
    case Taken(now, time, order) => Take(s, now, time, order)
    case FiredOne => FireOne(s)
  }

  ghost predicate Legal(s: State, events: seq<Event>)
    decreases |events|
  {
    events == [] || (Allowed(s, events[0]) && Legal(Step(s, events[0]), events[1..]))
  }

  ghost function After(s: State, events: seq<Event>): State
    requires Legal(s, events)
    decreases |events|
  {
    if events == [] then s else After(Step(s, events[0]), events[1..])
  }

  /** Under every interleaving of posts, erasures and the steps of the timer thread. */
  lemma {:induction false} EveryRunKeepsInv(s: State, events: seq<Event>)
    requires Inv(s) && Legal(s, events)
    ensures Inv(After(s, events))
    decreases |events|
  {
    if events != [] {
      match events[0] {
        case Posted(id, fire) => PostKeepsIff(s, id, fire);
        case Erased(id) => EraseKeeps(s, id);
        case Taken(now, time, order) => TakeKeeps(s, now, time, order);
        case FiredOne => FireOneKeeps(s);
      }
      EveryRunKeepsInv(Step(s, events[0]), events[1..]);
    }
  }

  /** No event is fired more often than it was posted and not erased. */
  lemma AtMostOncePerPost(events: seq<Event>, id: int)
    requires Legal(START, events)
    ensures var s := After(START, events);
            s.fired[id] + s.erased[id] + (if id in s.mapEvent then 1 else 0) == s.posted[id]
  {
    EveryRunKeepsInv(START, events);
  }

  /** After erase() the event is not in the timer, nor is an entry for it outside the batch; the other events
      are where they were. */
  lemma ErasedIsGone(s: State, id: int)
    requires Inv(s)
    ensures var t := Erase(s, id);
            && id !in t.mapEvent && (forall u: nat :: !Waits(t.mapTimer, u, id))
            && (forall x :: x != id ==> (x in t.mapEvent <==> x in s.mapEvent))
            && (forall x :: x != id && x in s.mapEvent ==> t.mapEvent[x] == s.mapEvent[x])
            && (forall u: nat, x :: x != id ==> (Waits(t.mapTimer, u, x) <==> Waits(s.mapTimer, u, x)))
            && t.batch == s.batch && t.clock == s.clock && t.fired == s.fired && t.posted == s.posted
            && t.erased[id] == s.erased[id] + if id in s.mapEvent then 1 else 0
  {
    var t := Erase(s, id);
    if id in s.mapEvent {
      var fire := s.mapEvent[id];
      forall u: nat, x ensures Waits(t.mapTimer, u, x) <==> Waits(s.mapTimer, u, x) && x != id {
        assert Waits(s.mapTimer, u, x) && x == id ==> u == fire;
        assert Waits(s.mapTimer, fire, x) && x != id ==> x in s.mapTimer[fire] - {id};
      }
    }
  }

  /** An event erased before fireEvent() looks it up is not fired, batch or not, until it is posted
      again. */
  lemma ErasedIsNotFired(s: State, id: int, events: seq<Event>)
    requires Inv(s) && Legal(Erase(s, id), events) && forall e :: e in events && e.Posted? ==> e.id != id
    ensures After(Erase(s, id), events).fired[id] == s.fired[id]
  {
    ErasedIsGone(s, id);
    AbsentIsNotFired(Erase(s, id), id, events);
  }

  lemma {:induction false} AbsentIsNotFired(s: State, id: int, events: seq<Event>)
    requires id !in s.mapEvent && Legal(s, events) && forall e :: e in events && e.Posted? ==> e.id != id
    ensures After(s, events).fired[id] == s.fired[id]
    decreases |events|
  {
    if events != [] {
      assert events[0] in events;
      AbsentIsNotFired(Step(s, events[0]), id, events[1..]);
    }
  }

  /** For example: an event taken and erased leaves its address in the batch, and a new event at that
      address is fired at once, whatever its time. */
  lemma ReusedAddressFiresEarly(id: int, now: nat, later: nat)
    requires later > now
    ensures var s0 := Take(Post(START, id, now), now, now, [id]);
            var s := Post(Erase(s0, id), id, later);
            && s.batch != [] && s.mapEvent == map[id := later] && later > s.clock
            && FireOne(s).fired[id] == 1 && id in At(FireOne(s).mapTimer, later) && id !in FireOne(s).mapEvent
  {
  }

  // ----- the class -----

  class Timer {
    var mapEvent: map<int, nat>
    var mapTimer: map<nat, set<int>>
    var batch: seq<int>
    ghost var clock: nat
    ghost var posted: multiset<int>
    ghost var fired: multiset<int>
    ghost var erased: multiset<int>

    ghost function Value(): State
      reads this
    {
      State(mapEvent, mapTimer, batch, clock, posted, fired, erased)
    }

    constructor ()
      ensures Value() == START
    {
      mapEvent, mapTimer, batch, clock := map[], map[], [], 0;
      posted, fired, erased := multiset{}, multiset{}, multiset{};
    }

    method PostEvent(uniqId: int, fireMillseconds: nat)
      modifies this
      ensures Value() == Post(old(Value()), uniqId, fireMillseconds)
    {
      posted := posted + multiset{uniqId};
      if uniqId !in mapEvent {
        mapEvent := mapEvent[uniqId := fireMillseconds];
      }
      mapTimer := mapTimer[fireMillseconds := At(mapTimer, fireMillseconds) + {uniqId}];
    }

    method EraseEvent(uniqId: int)
      modifies this
      ensures Value() == Erase(old(Value()), uniqId)
    {
      if uniqId in mapEvent {
        var fire := mapEvent[uniqId];
        if fire in mapTimer {
          var ids := mapTimer[fire] - {uniqId};
          mapTimer := mapTimer[fire := ids];
          if ids == {} {
            assert old(mapTimer) - {fire} == mapTimer - {fire};
            mapTimer := mapTimer - {fire};
          }
        }
        mapEvent := mapEvent - {uniqId};
        erased := erased + multiset{uniqId};
      }
    }

    /** The locked part of run(): takes the events of the first time, if it has come. */
    method TakeBatch(now: nat) returns (due: bool, time: nat)
      requires Inv(Value()) && batch == []
      modifies this
      ensures !due ==> Value() == old(Value()) && forall t: nat :: t in mapTimer ==> t > now
      ensures due ==> First(old(mapTimer), time) && time <= now && Lists(batch, old(mapTimer)[time])
      ensures due ==> Value() == Take(old(Value()), now, time, batch) && batch != [] && Inv(Value())
    {
      if mapTimer == map[] {
        return false, 0;
      }
      ghost var first := FirstExists(mapTimer);
      time :| time in mapTimer && First(mapTimer, time);
      assert First(mapTimer, time);
      if time > now {
        return false, time;
      }
      due := true;
      batch := InSomeOrder(mapTimer[time]);
      TakeKeeps(old(Value()), now, time, batch);
      mapTimer := mapTimer - {time};
      clock := now;
    }

    /** One turn of fireEvent(): fire says whether the event goes to the pool. */
    method FireNext() returns (fire: bool)
      requires Inv(Value()) && batch != []
      modifies this
      ensures Value() == FireOne(old(Value())) && Inv(Value())
      ensures fire == (old(batch)[0] in old(mapEvent))
    {
      FireOneKeeps(Value());
      var id := batch[0];
      fire := id in mapEvent;
      if fire {
        mapEvent := mapEvent - {id};
        fired := fired + multiset{id};
      }
      batch := batch[1..];
    }
  }

  lemma FirstExists(mapTimer: map<nat, set<int>>) returns (time: nat)
    requires mapTimer != map[]
    ensures First(mapTimer, time)
  {
    assert mapTimer.Keys != {};
    time := SmallestMember(mapTimer.Keys);
  }

  method InSomeOrder(ids: set<int>) returns (order: seq<int>)
    ensures Lists(order, ids)
  {
    order := [];
    var left := ids;
    while left != {}
      invariant left <= ids && Lists(order, ids - left)
      decreases |left|
    {
      ghost var some := SomeMember(left);
      var id :| id in left;
      order, left := order + [id], left - {id};
    }
  }
}
