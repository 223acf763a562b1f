/** The choice of a node for the next call: the active nodes are polled in turn. */
module RoundRobin {
  import opened Basics

  /** The place k steps on from p, of n in a circle. */
  function At(n: nat, p: nat, k: nat): (i: nat)
    requires p < n && k < n
    ensures i < n
  {
    if p + k < n then p + k else p + k - n
  }

  /** Where polling starts after the last position, which may lie beyond the end. */
  function From(n: nat, last: nat): (p: nat)
    requires n > 0
    ensures p < n
  {
    if last + 1 >= n then 0 else last + 1
  }

  /** i is the first node, going round from the last position, that reports active; k nodes before it
      do not. */
  predicate FirstUp(up: seq<bool>, last: nat, k: nat, i: nat)
    requires |up| > 0
  {
    var n := |up|;
    && k < n && i == At(n, From(n, last), k) && up[i]
    && forall m :: 0 <= m < k ==> !up[At(n, From(n, last), m)]
  }

  /** The nodes by their description. A node is known by its place in the list of all of them, which only
      grows. */
  ghost predicate Numbered(allProxys: map<string, nat>, vAllProxys: seq<string>) {
    && (forall d :: d in allProxys ==> allProxys[d] < |vAllProxys| && vAllProxys[allProxys[d]] == d)
    && (forall k :: 0 <= k < |vAllProxys| ==> vAllProxys[k] in allProxys && allProxys[vAllProxys[k]] == k)
  }

  /** The list after nodes have been asked for: each that was not in it is at its end, once. */
  function Added(all: seq<string>, ds: seq<string>): (r: seq<string>)
    ensures all <= r
  {
    if ds == [] then all
    else
      var init, d := Added(all, ds[..|ds| - 1]), ds[|ds| - 1];
      if d in init then init else init + [d]
  }

  lemma {:induction false} AddedMembers(all: seq<string>, ds: seq<string>, d: string)
    ensures d in Added(all, ds) <==> d in all || d in ds
  {
    if ds != [] {
      AddedMembers(all, ds[..|ds| - 1], d);
      assert ds == ds[..|ds| - 1] + [ds[|ds| - 1]];
    }
  }

  lemma AddedOne(all: seq<string>, ds: seq<string>, i: nat)
    requires i < |ds|
    ensures var init := Added(all, ds[..i]);
            Added(all, ds[..i + 1]) == if ds[i] in init then init else init + [ds[i]]
  {
    assert ds[..i + 1][..i] == ds[..i];
  }

  function Numbers(from: nat, to: nat): seq<nat>
    requires from <= to
  {
    seq(to - from, k requires k >= 0 => from + k)
  }

  /** ns are the nodes of ds, in order. */
  predicate NodesOf(ns: seq<nat>, ds: seq<string>, all: seq<string>) {
    |ns| == |ds| && forall k :: 0 <= k < |ns| ==> ns[k] < |all| && all[ns[k]] == ds[k]
  }

  lemma NodesMore(ns: seq<nat>, ds: seq<string>, all: seq<string>, n: nat, d: string, more: seq<string>)
    requires NodesOf(ns, ds, all) && all <= more && n < |more| && more[n] == d
    ensures NodesOf(ns + [n], ds + [d], more)
  {
  }

  lemma NodesKept(ns: seq<nat>, ds: seq<string>, all: seq<string>, more: seq<string>)
    requires NodesOf(ns, ds, all) && all <= more
    ensures NodesOf(ns, ds, more)
  {
  }

  /** Those of the first m nodes from start on that are well, in the order in which they are polled. */
  function WellOnes(well: seq<bool>, start: nat, m: nat): (ns: seq<nat>)
    requires start < |well| && m <= |well|
    ensures forall c :: 0 <= c < |ns| ==> ns[c] < |well| && well[ns[c]]
  {
    if m == 0 then []
    else
      var i := At(|well|, start, m - 1);
      WellOnes(well, start, m - 1) + if well[i] then [i] else []
  }

  class EndpointManager {
    var allProxys: map<string, nat>
    var vAllProxys: seq<string>
    var activeProxys: seq<nat>
    var lastRoundPosition: nat

    ghost predicate Valid()
      reads this
    {
      Numbered(allProxys, vAllProxys)
    }

    constructor ()
      ensures Valid() && activeProxys == [] && vAllProxys == [] && lastRoundPosition == 0
    {
      allProxys, vAllProxys, activeProxys, lastRoundPosition := map[], [], [], 0;
    }

    /** The node with this description, made unless there is one. */
    method Proxy(d: string) returns (proxy: nat)
      requires Valid()
      modifies this`allProxys, this`vAllProxys
      ensures Valid() && proxy < |vAllProxys| && vAllProxys[proxy] == d
      ensures vAllProxys == if d in old(vAllProxys) then old(vAllProxys) else old(vAllProxys) + [d]
    {
      if d !in allProxys {
        allProxys, vAllProxys := allProxys[d := |vAllProxys|], vAllProxys + [d];
      }
      proxy := allProxys[d];
    }

    /** updateEndpoints(): the active nodes are those of the list, in its order; a node that was there before
        is the same one. Where polling goes on stays, and may be beyond the end from then on. */
    method UpdateEndpoints(active: seq<string>, inactive: seq<string>)
      requires Valid()
      modifies this`allProxys, this`vAllProxys, this`activeProxys
      ensures Valid() && NodesOf(activeProxys, active, vAllProxys)
      ensures vAllProxys == Added(Added(old(vAllProxys), active), inactive)
    {
      activeProxys := [];
      for i := 0 to |active|
        invariant Valid() && vAllProxys == Added(old(vAllProxys), active[..i])
        invariant NodesOf(activeProxys, active[..i], vAllProxys)
      {
        AddedOne(old(vAllProxys), active, i);
        ghost var all := vAllProxys;
        var proxy := Proxy(active[i]);
        NodesMore(activeProxys, active[..i], all, proxy, active[i], vAllProxys);
        assert active[..i + 1] == active[..i] + [active[i]];
        activeProxys := activeProxys + [proxy];
      }
      assert active[..|active|] == active;
      ghost var all := vAllProxys;
      AddInactive(inactive);
      NodesKept(activeProxys, active, all, vAllProxys);
    }

    method AddInactive(inactive: seq<string>)
      requires Valid()
      modifies this`allProxys, this`vAllProxys
      ensures Valid() && vAllProxys == Added(old(vAllProxys), inactive)
    {
      for i := 0 to |inactive|
        invariant Valid() && vAllProxys == Added(old(vAllProxys), inactive[..i])
      {
        AddedOne(old(vAllProxys), inactive, i);
        var proxy := Proxy(inactive[i]);
      }
      assert inactive[..|inactive|] == inactive;
    }

    method ProxyBehind(d: string, ghost was: seq<nat>, ghost from: nat, active: seq<nat>) returns (r: seq<nat>)
      requires Valid() && d !in allProxys && from <= |vAllProxys| && active == was + Numbers(from, |vAllProxys|)
      modifies this`allProxys, this`vAllProxys
      ensures Valid() && vAllProxys == old(vAllProxys) + [d] && r == was + Numbers(from, |vAllProxys|)
    {
      assert d !in vAllProxys;
      ghost var n := |vAllProxys|;
      var proxy := Proxy(d);
      assert allProxys[vAllProxys[n]] == n && allProxys[vAllProxys[proxy]] == proxy;
      assert Numbers(from, n + 1) == Numbers(from, n) + [n];
      r := active + [proxy];
    }

    /** addEndpoints(): those that are new are active from now on, behind the others. */
    method AddEndpoints(active: seq<string>)
      requires Valid()
      modifies this`allProxys, this`vAllProxys, this`activeProxys
      ensures Valid() && vAllProxys == Added(old(vAllProxys), active)
      ensures activeProxys == old(activeProxys) + Numbers(|old(vAllProxys)|, |vAllProxys|)
    {
      for i := 0 to |active|
        invariant Valid() && vAllProxys == Added(old(vAllProxys), active[..i])
        invariant activeProxys == old(activeProxys) + Numbers(|old(vAllProxys)|, |vAllProxys|)
      {
        AddedOne(old(vAllProxys), active, i);
        if active[i] !in allProxys {
          activeProxys := ProxyBehind(active[i], old(activeProxys), |old(vAllProxys)|, activeProxys);
        }
      }
      assert active[..|active|] == active;
    }

    /** getNextValidProxy(): up is what each node would report when polled in this call, well that it has
        no connect timeout or connection exception after that, and rand the random number drawn if no
        node is up. forced says that the node chosen is asked again, with force. */
    method GetNextValidProxy(up: seq<bool>, well: seq<bool>, rand: nat)
      returns (chosen: Option<nat>, polls: nat, forced: bool)
      requires |up| == |well| == |activeProxys|
      modifies this`lastRoundPosition
      ensures up == [] ==> chosen == None && polls == 0 && lastRoundPosition == old(lastRoundPosition)
      ensures chosen.Some? <==> up != []
      ensures chosen.Some? ==> chosen.value < |up| && lastRoundPosition < |up| && 0 < polls <= |up|
      ensures forced <==> chosen.Some? && !up[chosen.value]
      ensures chosen.Some? && up[chosen.value] ==>
                FirstUp(up, old(lastRoundPosition), polls - 1, chosen.value) && lastRoundPosition == chosen.value
      ensures up != [] && !up[chosen.value] ==>
                && polls == |up| && (forall i :: 0 <= i < |up| ==> !up[i])
                && (well[chosen.value] || forall i :: 0 <= i < |up| ==> !well[i])
                && var ones := WellOnes(well, From(|up|, old(lastRoundPosition)), |up|);
                   chosen.value == if ones != [] then ones[rand % |ones|] else rand % |up|
    {
      if activeProxys == [] {
        return None, 0, false;
      }
      var n := |activeProxys|;
      var conn: seq<nat> := [];
      ghost var start := From(n, lastRoundPosition);
      polls := 0;
      while polls < n
        invariant polls <= n
        invariant forall m :: 0 <= m < polls ==> !up[At(n, start, m)]
        invariant polls > 0 ==> lastRoundPosition == At(n, start, polls - 1)
        invariant polls == 0 ==> lastRoundPosition == old(lastRoundPosition)
        invariant conn == WellOnes(well, start, polls)
        invariant conn == [] ==> forall m :: 0 <= m < polls ==> !well[At(n, start, m)]
      {
        lastRoundPosition := lastRoundPosition + 1;
        if lastRoundPosition >= n {
          lastRoundPosition := 0;
        }
        polls := polls + 1;
        if up[lastRoundPosition] {
          return Some(lastRoundPosition), polls, false;
        }
        if well[lastRoundPosition] {
          conn := conn + [lastRoundPosition];
        }
      }
      AllSeen(n, start, up);
      AllSeen(n, start, well);
      if |conn| > 0 {
        return Some(conn[rand % |conn|]), polls, true;
      }
      chosen, forced := Some(rand % n), true;
    }
  }

  /** Going round once passes every node. */
  lemma AllSeen(n: nat, p: nat, marks: seq<bool>)
    requires p < n == |marks|
    ensures (forall m :: 0 <= m < n ==> !marks[At(n, p, m)]) ==> forall i :: 0 <= i < n ==> !marks[i]
  {
    if forall m :: 0 <= m < n ==> !marks[At(n, p, m)] {
      forall i | 0 <= i < n ensures !marks[i] {
        var m := if p <= i then i - p else i - p + n;
        assert At(n, p, m) == i;
      }
    }
  }

  // ----- no starvation -----

  function Distance(n: nat, last: nat, j: nat): (d: nat)
    requires j < n
    ensures d < n && At(n, From(n, last), d) == j
  {
    var p := From(n, last);
    if p <= j then j - p else j - p + n
  }

  /** Passing over an active node is not possible, so each call gets nearer to it or chooses it. */
  lemma Nearer(up: seq<bool>, last: nat, k: nat, i: nat, j: nat)
    requires j < |up| && up[j] && FirstUp(up, last, k, i)
    ensures i == j || Distance(|up|, i, j) < Distance(|up|, last, j)
  {
    var d := Distance(|up|, last, j);
    assert k <= d;
  }

  /** The positions of a series of calls, of which the c-th finds the nodes up as ups[c] says. */
  ghost predicate Calls(n: nat, positions: seq<nat>, ups: seq<seq<bool>>) {
    && n > 0 && |positions| == |ups| + 1
    && forall c :: 0 <= c < |ups| ==> |ups[c]| == n && Chooses(ups[c], positions[c], positions[c + 1])
  }

  ghost predicate Chooses(up: seq<bool>, last: nat, i: nat)
    requires |up| > 0
  {
    exists k :: FirstUp(up, last, k, i)
  }

  /** A node that is always active is chosen before as many calls have passed as it is away from the
      start, so at least once in any n consecutive calls, wherever the last position is at first. */
  lemma {:induction false} NoStarvation(n: nat, positions: seq<nat>, ups: seq<seq<bool>>, j: nat) returns (c: nat)
    requires Calls(n, positions, ups) && j < n && forall c :: 0 <= c < |ups| ==> ups[c][j]
    requires |ups| > Distance(n, positions[0], j)
    ensures c <= Distance(n, positions[0], j) && positions[c + 1] == j
    decreases |ups|
  {
    assert Chooses(ups[0], positions[0], positions[1]);
    var k :| FirstUp(ups[0], positions[0], k, positions[1]);
    Nearer(ups[0], positions[0], k, positions[1], j);
    if positions[1] == j {
      c := 0;
    } else {
      assert forall c :: 0 <= c < |ups| - 1 ==> ups[1..][c] == ups[c + 1];
      var rest := NoStarvation(n, positions[1..], ups[1..], j);
      c := rest + 1;
    }
  }
}
