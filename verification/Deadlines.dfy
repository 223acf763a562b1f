/** A multimap from times to keys, in which every key has at most one entry: the order in which
    deadlines come. Erasing the entry an iterator denotes is Without. */
module Deadlines {
  import opened Basics

  /** An entry; an iterator to it is known by its value, since no key has two. */
  datatype Entry = Entry(time: int, key: int)

  /** In the order of the times, no key twice. */
  ghost predicate Ordered(tl: seq<Entry>) {
    forall i, j :: 0 <= i < j < |tl| ==> tl[i].time <= tl[j].time && tl[i].key != tl[j].key
  }

  function UpperBound(tl: seq<Entry>, time: int): (k: nat)
    ensures k <= |tl| && (k > 0 ==> tl[k - 1].time <= time) && (k < |tl| ==> time < tl[k].time)
  {
    if tl == [] || tl[|tl| - 1].time <= time then |tl| else UpperBound(tl[..|tl| - 1], time)
  }

  /** multimap::insert: behind the entries with the same key. */
  function Insert(tl: seq<Entry>, e: Entry): seq<Entry> {
    var k := UpperBound(tl, e.time);
    tl[..k] + [e] + tl[k..]
  }

  lemma InsertMembers(tl: seq<Entry>, e: Entry)
    ensures forall x :: x in Insert(tl, e) <==> x in tl || x == e
  {
    var k := UpperBound(tl, e.time);
    var a, b := tl[..k], tl[k..];
    assert tl == a + b;
    assert Insert(tl, e) == a + [e] + b;
  }

  lemma OrderedAt(tl: seq<Entry>, k: nat, e: Entry)
    requires Ordered(tl) && k <= |tl| && forall x :: x in tl ==> x.key != e.key
    requires (k > 0 ==> tl[k - 1].time <= e.time) && (k < |tl| ==> e.time <= tl[k].time)
    ensures Ordered(tl[..k] + [e] + tl[k..])
  {
    var r := tl[..k] + [e] + tl[k..];
    forall i, j | 0 <= i < j < |r| ensures r[i].time <= r[j].time && r[i].key != r[j].key {
      assert i < k ==> r[i] == tl[i] && tl[i].time <= tl[k - 1].time;
      assert j > k ==> r[j] == tl[j - 1] && tl[k].time <= tl[j - 1].time;
    }
  }

  lemma InsertOrdered(tl: seq<Entry>, e: Entry)
    requires Ordered(tl) && forall x :: x in tl ==> x.key != e.key
    ensures Ordered(Insert(tl, e))
  {
    OrderedAt(tl, UpperBound(tl, e.time), e);
  }

  lemma RemoveOrdered(tl: seq<Entry>, e: Entry)
    requires Ordered(tl) && e in tl
    ensures Ordered(Without(tl, e))
    ensures forall x :: x in Without(tl, e) <==> x in tl && x != e
  {
    var k := IndexOf(tl, e);
    WithoutAt(tl, e);
    assert tl == tl[..k] + [e] + tl[k + 1..];
  }

  lemma RemoveSelf(a: seq<Entry>, e: Entry, b: seq<Entry>)
    requires Ordered(a + [e] + b)
    ensures e in a + [e] + b && Without(a + [e] + b, e) == a + b
  {
    var tl := a + [e] + b;
    assert tl[|a|] == e;
    var k := IndexOf(tl, e);
    WithoutAt(tl, e);
    assert k == |a|;
    assert tl[..k] == a && tl[k + 1..] == b;
  }
}
