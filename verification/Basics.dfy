module Basics {
  datatype Option<+T> = None | Some(value: T)

  type byte = b: int | 0 <= b < 256

  const UINT32 := 0x1_0000_0000

  ghost predicate Distinct(s: seq<int>) {
    forall i, j :: 0 <= i < j < |s| ==> s[i] != s[j]
  }

  function IndexOf<T(==)>(s: seq<T>, x: T): (k: nat)
    requires x in s
    ensures k < |s| && s[k] == x
  {
    if s[0] == x then 0 else 1 + IndexOf(s[1..], x)
  }

  /** s with the first occurrence of x taken out. */
  function Without<T(==)>(s: seq<T>, x: T): seq<T> {
    if s == [] then []
    else if s[0] == x then s[1..]
    else [s[0]] + Without(s[1..], x)
  }

  lemma {:induction false} WithoutAt<T>(s: seq<T>, x: T)
    requires x in s
    ensures Without(s, x) == s[..IndexOf(s, x)] + s[IndexOf(s, x) + 1..]
  {
    if s[0] != x {
      var rest := s[1..];
      var k := IndexOf(rest, x);
      WithoutAt(rest, x);
      Shifted(s[0], rest, k, s);
    }
  }

  lemma Shifted<T>(x: T, rest: seq<T>, k: nat, s: seq<T>)
    requires k < |rest| && s == [x] + rest
    ensures s[..k + 1] + s[k + 2..] == [x] + (rest[..k] + rest[k + 1..])
  {
    assert s[..k + 1] == [x] + rest[..k];
    assert s[k + 2..] == rest[k + 1..];
  }

  lemma SomeMember(s: set<int>) returns (x: int)
    requires s != {}
    ensures x in s
  {
    var none: set<int> := {};
    if forall y :: y in s <==> y in none {
      assert false;
    }
    x :| x in s;
  }

  lemma {:induction false} SmallestMember(s: set<int>) returns (x: int)
    requires s != {}
    ensures x in s && forall y :: y in s ==> x <= y
    decreases |s|
  {
    var first := SomeMember(s);
    x := first;
    var others := s - {first};
    if others != {} {
      var rest := SmallestMember(others);
      if rest < x {
        x := rest;
      }
    }
    forall y | y in s ensures x <= y {
      if y !in others { assert y in {first}; }
    }
  }
}
