/** How a server connection notices a peer that does not take its data: the backlog is sampled while it
    is over a limit, and the connection is dropped when the samples look bad. */
module SlowSenders {
  import opened Basics
  import opened Sockets
  import NetworkBuffers

  /** One call of sendBuffer(): its time, the bytes sent in it, the backlog before it, and whether
      the backlog after it is over the limit. */
  datatype Check = Check(at: int, sent: nat, left: nat, over: bool)

  datatype Sampled = Sampled(sent: nat, left: nat)

  datatype Window = Window(sendBufferSize: nat, lastCheckTime: int, checkSend: seq<Sampled>)

  datatype Verdict = Fine | Slow | Accumulating

  const START := Window(0, 0, [])

  predicate TooSlow(samples: seq<Sampled>, min: nat) {
    var n := |samples|;
    n >= 3 && samples[n - 1].sent <= min && samples[n - 2].sent <= min && samples[n - 3].sent <= min
  }

  predicate Growing(samples: seq<Sampled>) {
    |samples| >= 12 && forall i :: 1 <= i < |samples| ==> samples[i - 1].left <= samples[i].left
  }

  /** What a sample does. */
  function Sample(w: Window, min: nat, now: int, left: nat): (Window, Verdict) {
    var samples := w.checkSend + [Sampled(w.sendBufferSize, left)];
    if TooSlow(samples, min) then (Window(0, now, samples), Slow)
    else if Growing(samples) then (Window(0, now, samples), Accumulating)
    else (Window(0, now, if |samples| >= 12 then samples[1..] else samples), Fine)
  }

  function Step(w: Window, min: nat, c: Check): (Window, Verdict) {
    if !c.over then (Window(0, c.at, []), Fine)
    else
      var since := if w.sendBufferSize == 0 then c.at else w.lastCheckTime;
      var v := Window(w.sendBufferSize + c.sent, since, w.checkSend);
      if c.at - since >= 5 then Sample(v, min, c.at, c.left) else (v, Fine)
  }

  function Run(min: nat, cs: seq<Check>): (Window, Verdict) {
    if cs == [] then (START, Fine)
    else Step(Run(min, cs[..|cs| - 1]).0, min, cs[|cs| - 1])
  }

  function Sent(cs: seq<Check>): nat {
    if cs == [] then 0 else Sent(cs[..|cs| - 1]) + cs[|cs| - 1].sent
  }

  predicate InOrder(cs: seq<Check>) {
    forall i, j :: 0 <= i <= j < |cs| ==> cs[i].at <= cs[j].at
  }

  // ----- what the samples stand for -----

  /** A stretch of checks that ends with a sample. */
  ghost predicate Stands(s: seq<Check>, sample: Sampled) {
    && s != [] && (forall k :: 0 <= k < |s| ==> s[k].over)
    && s[|s| - 1].at - s[0].at >= 5
    && sample == Sampled(Sent(s), s[|s| - 1].left) && sample.sent > 0
  }

  ghost predicate StandAll(parts: seq<seq<Check>>, samples: seq<Sampled>) {
    |parts| == |samples| && forall k :: 0 <= k < |parts| ==> Stands(parts[k], samples[k])
  }

  lemma StandTail(parts: seq<seq<Check>>, samples: seq<Sampled>, n: nat)
    requires StandAll(parts, samples) && n <= |parts|
    ensures StandAll(parts[n..], samples[n..])
  {
  }

  lemma JoinedSplit(parts: seq<seq<Check>>, n: nat)
    requires n <= |parts|
    ensures Joined(parts) == Joined(parts[..n]) + Joined(parts[n..])
  {
    var a, b := parts[..n], parts[n..];
    assert parts == a + b;
    JoinedAppend(a, b);
  }

  function Joined(parts: seq<seq<Check>>): seq<Check> {
    if parts == [] then [] else parts[0] + Joined(parts[1..])
  }

  lemma {:induction false} JoinedAppend(a: seq<seq<Check>>, b: seq<seq<Check>>)
    ensures Joined(a + b) == Joined(a) + Joined(b)
  {
    if a == [] {
      assert a + b == b;
    } else {
      assert (a + b)[1..] == a[1..] + b;
      JoinedAppend(a[1..], b);
    }
  }

  /** What a window says of the checks so far: they end with one stretch for each of its samples, and
      with open, the checks since the last sample, which are over the limit too. */
  ghost predicate Reads(w: Window, cs: seq<Check>, before: seq<Check>, parts: seq<seq<Check>>, open: seq<Check>) {
    && cs == before + Joined(parts) + open
    && StandAll(parts, w.checkSend)
    && (forall k :: 0 <= k < |open| ==> open[k].over)
    && w.sendBufferSize == Sent(open)
    && (w.sendBufferSize > 0 ==> w.lastCheckTime >= open[0].at)
  }

  predicate Samples(w: Window, c: Check) {
    c.over && w.sendBufferSize > 0 && c.at - w.lastCheckTime >= 5
  }

  lemma OpenMore(open: seq<Check>, c: Check)
    ensures Sent(open + [c]) == Sent(open) + c.sent
  {
    assert (open + [c])[..|open|] == open;
  }

  /** The window right after a sample. */
  function Sampling(w: Window, c: Check): Window {
    Window(0, c.at, w.checkSend + [Sampled(w.sendBufferSize + c.sent, c.left)])
  }

  lemma StepSamples(w: Window, min: nat, c: Check)
    requires Samples(w, c)
    ensures var v, s := Step(w, min, c), Sampling(w, c).checkSend;
            && v.1 == (if TooSlow(s, min) then Slow else if Growing(s) then Accumulating else Fine)
            && (v.1 == Fine ==> v.0 == if |s| >= 12 then Sampling(w, c).(checkSend := s[1..]) else Sampling(w, c))
  {
  }

  lemma JoinedOne(s: seq<Check>)
    ensures Joined([s]) == s
  {
    assert [s][1..] == [] && s + [] == s;
  }

  lemma LastStands(w: Window, c: Check, open: seq<Check>)
    requires Samples(w, c) && w.sendBufferSize == Sent(open) && forall k :: 0 <= k < |open| ==> open[k].over
    requires open != [] ==> w.lastCheckTime >= open[0].at
    ensures Stands(open + [c], Sampled(w.sendBufferSize + c.sent, c.left))
  {
    OpenMore(open, c);
  }

  lemma Regroup(a: seq<Check>, b: seq<Check>, c: seq<Check>, d: seq<Check>)
    ensures (a + b + c) + d == a + (b + (c + d)) + []
  {
  }

  /** At a sample, the checks end with one stretch for each sample there is then. */
  lemma SampleReads(w: Window, cs: seq<Check>, c: Check, before: seq<Check>, parts: seq<seq<Check>>, open: seq<Check>)
    requires Reads(w, cs, before, parts, open) && Samples(w, c)
    ensures Reads(Sampling(w, c), cs + [c], before, parts + [open + [c]], [])
  {
    var last := open + [c];
    LastStands(w, c, open);
    JoinedAppend(parts, [last]);
    JoinedOne(last);
    Regroup(before, Joined(parts), open, [c]);
    assert StandAll(parts + [last], Sampling(w, c).checkSend);
  }

  lemma DropFirst(w: Window, cs: seq<Check>, before: seq<Check>, parts: seq<seq<Check>>)
    requires Reads(w, cs, before, parts, []) && parts != []
    ensures Reads(w.(checkSend := w.checkSend[1..]), cs, before + Joined(parts[..1]), parts[1..], [])
  {
    StandTail(parts, w.checkSend, 1);
    JoinedSplit(parts, 1);
    var a, b := Joined(parts[..1]), Joined(parts[1..]);
    assert before + (a + b) + [] == (before + a) + b + [];
  }

  lemma SampledReads(w: Window, min: nat, cs: seq<Check>, c: Check, b: seq<Check>, p: seq<seq<Check>>, o: seq<Check>)
    returns (before: seq<Check>, parts: seq<seq<Check>>)
    requires Reads(w, cs, b, p, o) && Samples(w, c) && Step(w, min, c).1 == Fine
    ensures Reads(Step(w, min, c).0, cs + [c], before, parts, [])
  {
    SampleReads(w, cs, c, b, p, o);
    StepSamples(w, min, c);
    before, parts := b, p + [o + [c]];
    if |parts| >= 12 {
      DropFirst(Sampling(w, c), cs + [c], before, parts);
      before, parts := b + Joined(parts[..1]), parts[1..];
    }
  }

  lemma OpenReads(w: Window, min: nat, cs: seq<Check>, c: Check, b: seq<Check>, p: seq<seq<Check>>, o: seq<Check>)
    requires Reads(w, cs, b, p, o) && c.over && !Samples(w, c)
    requires forall k :: 0 <= k < |cs| ==> cs[k].at <= c.at
    ensures Reads(Step(w, min, c).0, cs + [c], b, p, o + [c]) && Step(w, min, c).1 == Fine
  {
    OpenMore(o, c);
    assert (b + Joined(p) + o) + [c] == b + Joined(p) + (o + [c]);
    assert o != [] ==> o[0] == cs[|b + Joined(p)|];
  }

  lemma StepReads(w: Window, min: nat, cs: seq<Check>, c: Check, b: seq<Check>, p: seq<seq<Check>>, o: seq<Check>)
    returns (before: seq<Check>, parts: seq<seq<Check>>, open: seq<Check>)
    requires Reads(w, cs, b, p, o) && Step(w, min, c).1 == Fine
    requires forall k :: 0 <= k < |cs| ==> cs[k].at <= c.at
    ensures Reads(Step(w, min, c).0, cs + [c], before, parts, open)
  {
    if !c.over {
      before, parts, open := cs + [c], [], [];
      assert cs + [c] == before + Joined(parts) + open;
    } else if Samples(w, c) {
      before, parts := SampledReads(w, min, cs, c, b, p, o);
      open := [];
    } else {
      OpenReads(w, min, cs, c, b, p, o);
      before, parts, open := b, p, o + [c];
    }
  }

  /** No earlier check has dropped the connection. */
  predicate Alive(min: nat, cs: seq<Check>) {
    cs == [] || (Run(min, cs[..|cs| - 1]).1 == Fine && Alive(min, cs[..|cs| - 1]))
  }

  lemma {:induction false} RunReads(min: nat, cs: seq<Check>)
    returns (before: seq<Check>, parts: seq<seq<Check>>, open: seq<Check>)
    requires InOrder(cs) && Alive(min, cs) && Run(min, cs).1 == Fine
    ensures Reads(Run(min, cs).0, cs, before, parts, open)
  {
    if cs == [] {
      before, parts, open := [], [], [];
    } else {
      var init, c := cs[..|cs| - 1], cs[|cs| - 1];
      before, parts, open := RunReads(min, init);
      before, parts, open := StepReads(Run(min, init).0, min, init, c, before, parts, open);
      assert cs == init + [c];
    }
  }

  lemma SpanSum(a: seq<Check>, b: seq<Check>)
    requires InOrder(a + b) && a != [] && b != []
    ensures InOrder(b)
    ensures var c := a + b; c[|c| - 1].at - c[0].at >= (a[|a| - 1].at - a[0].at) + (b[|b| - 1].at - b[0].at)
  {
    var c := a + b;
    assert c[0] == a[0] && c[|a| - 1] == a[|a| - 1] && c[|a|] == b[0] && c[|c| - 1] == b[|b| - 1];
    forall i, j | 0 <= i <= j < |b| ensures b[i].at <= b[j].at {
      assert b[i] == c[|a| + i] && b[j] == c[|a| + j];
    }
  }

  lemma {:induction false} Span(parts: seq<seq<Check>>, samples: seq<Sampled>)
    requires parts != [] && StandAll(parts, samples)
    requires InOrder(Joined(parts))
    ensures var all := Joined(parts); all != [] && all[|all| - 1].at - all[0].at >= 5 * |parts|
    ensures forall c :: c in Joined(parts) ==> c.over
  {
    var first, rest := parts[0], Joined(parts[1..]);
    assert Stands(first, samples[0]);
    if |parts| == 1 {
      assert Joined(parts) == first;
    } else {
      StandTail(parts, samples, 1);
      if rest != [] {
        SpanSum(first, rest);
      }
      Span(parts[1..], samples[1..]);
    }
  }

  // ----- what a verdict means -----

  ghost predicate Drops(min: nat, cs: seq<Check>, v: Verdict) {
    InOrder(cs) && Alive(min, cs) && Run(min, cs).1 == v
  }

  lemma LastSample(min: nat, cs: seq<Check>, v: Verdict)
    returns (before: seq<Check>, parts: seq<seq<Check>>, samples: seq<Sampled>)
    requires Drops(min, cs, v) && v != Fine
    ensures cs == before + Joined(parts) && StandAll(parts, samples)
    ensures v == if TooSlow(samples, min) then Slow else if Growing(samples) then Accumulating else Fine
  {
    var init, c := cs[..|cs| - 1], cs[|cs| - 1];
    assert cs == init + [c];
    var w := Run(min, init).0;
    var open;
    before, parts, open := RunReads(min, init);
    SampleReads(w, init, c, before, parts, open);
    StepSamples(w, min, c);
    parts, samples := parts + [open + [c]], Sampling(w, c).checkSend;
  }

  /** A connection is dropped as slow only when the latest checks, all of them over the limit, go back at
      least 15 seconds and fall into three stretches in each of which no more than min bytes went out. */
  lemma SlowMeans(min: nat, cs: seq<Check>) returns (before: seq<Check>, three: seq<seq<Check>>)
    requires Drops(min, cs, Slow)
    ensures |three| == 3 && cs == before + Joined(three)
    ensures forall k :: 0 <= k < 3 ==> 0 < Sent(three[k]) <= min
    ensures forall k :: |before| <= k < |cs| ==> cs[k].over
    ensures |before| < |cs| && cs[|cs| - 1].at - cs[|before|].at >= 15
  {
    var parts, samples;
    before, parts, samples := LastSample(min, cs, Slow);
    var n := |parts| - 3;
    StandTail(parts, samples, n);
    JoinedSplit(parts, n);
    assert before + (Joined(parts[..n]) + Joined(parts[n..])) == (before + Joined(parts[..n])) + Joined(parts[n..]);
    before, three := before + Joined(parts[..n]), parts[n..];
    Tail(min, cs, before, three, samples[n..]);
  }

  /** And as accumulating only when they go back at least 60 seconds, with the backlog at twelve or more
      samples not getting smaller. */
  lemma AccumulatingMeans(min: nat, cs: seq<Check>) returns (before: seq<Check>, parts: seq<seq<Check>>)
    requires Drops(min, cs, Accumulating)
    ensures |parts| >= 12 && cs == before + Joined(parts) && forall k :: 0 <= k < |parts| ==> parts[k] != []
    ensures forall k :: 1 <= k < |parts| ==> parts[k - 1][|parts[k - 1]| - 1].left <= parts[k][|parts[k]| - 1].left
    ensures forall k :: |before| <= k < |cs| ==> cs[k].over
    ensures |before| < |cs| && cs[|cs| - 1].at - cs[|before|].at >= 60
  {
    var samples;
    before, parts, samples := LastSample(min, cs, Accumulating);
    assert Growing(samples);
    Tail(min, cs, before, parts, samples);
  }

  lemma Tail(min: nat, cs: seq<Check>, before: seq<Check>, parts: seq<seq<Check>>, samples: seq<Sampled>)
    requires InOrder(cs) && cs == before + Joined(parts)
    requires parts != [] && StandAll(parts, samples)
    ensures forall k :: |before| <= k < |cs| ==> cs[k].over
    ensures |before| < |cs| && cs[|cs| - 1].at - cs[|before|].at >= 5 * |parts|
  {
    var all := Joined(parts);
    assert forall i :: 0 <= i < |all| ==> all[i] == cs[|before| + i];
    Span(parts, samples);
    forall k | |before| <= k < |cs| ensures cs[k].over {
      assert cs[k] == all[k - |before|] && cs[k] in all;
    }
  }

  // ----- a peer that stops taking its data -----

  predicate Stalled(cs: seq<Check>) {
    forall k :: 0 <= k < |cs| ==> cs[k].sent == 0
  }

  /** One of the checks that follow drops the connection. */
  predicate Dropped(w: Window, min: nat, cs: seq<Check>)
    decreases cs
  {
    cs != [] && (Step(w, min, cs[0]).1 != Fine || Dropped(Step(w, min, cs[0]).0, min, cs[1..]))
  }

  /** The first check that ends the open stretch, by a sample or because the backlog is under the limit. */
  function FirstDue(since: int, cs: seq<Check>): (k: nat)
    ensures k <= |cs|
    ensures forall j :: 0 <= j < k ==> cs[j].over && cs[j].at - since < 5
    ensures k < |cs| ==> !cs[k].over || cs[k].at - since >= 5
  {
    if cs == [] || !cs[0].over || cs[0].at - since >= 5 then 0 else 1 + FirstDue(since, cs[1..])
  }

  /** Something went out since the last sample, and the one sample that is still to come is bad. */
  predicate Doomed(w: Window, min: nat, cs: seq<Check>) {
    var k := FirstDue(w.lastCheckTime, cs);
    && w.sendBufferSize > 0 && k < |cs| && cs[k].over
    && var samples := w.checkSend + [Sampled(w.sendBufferSize, cs[k].left)]; TooSlow(samples, min) || Growing(samples)
  }

  lemma {:induction false} NothingOpen(w: Window, min: nat, cs: seq<Check>)
    requires Stalled(cs) && w.sendBufferSize == 0
    ensures !Dropped(w, min, cs)
    decreases cs
  {
    if cs != [] {
      NothingOpen(Step(w, min, cs[0]).0, min, cs[1..]);
    }
  }

  /** A peer that takes nothing any more is dropped exactly when it is doomed: it is sampled at most once,
      and each check after that starts the stretch anew. */
  lemma {:induction false} StalledIsDroppedIff(w: Window, min: nat, cs: seq<Check>)
    requires Stalled(cs)
    ensures Dropped(w, min, cs) <==> Doomed(w, min, cs)
  {
    if w.sendBufferSize == 0 {
      NothingOpen(w, min, cs);
    } else if cs != [] {
      var c := cs[0];
      if Samples(w, c) {
        StepSamples(w, min, c);
      }
      if !c.over || Samples(w, c) {
        NothingOpen(Step(w, min, c).0, min, cs[1..]);
      } else {
        StalledIsDroppedIff(w, min, cs[1..]);
      }
    }
  }

  /** In a run, the checks of b drop the connection when one of them has a verdict. */
  lemma {:induction false} DroppedInRun(min: nat, a: seq<Check>, b: seq<Check>)
    ensures Dropped(Run(min, a).0, min, b) <==> exists k :: |a| < k <= |a + b| && Run(min, (a + b)[..k]).1 != Fine
    decreases b
  {
    if b != [] {
      var more := a + [b[0]];
      assert more[..|a|] == a && more + b[1..] == a + b && (a + b)[..|more|] == more;
      DroppedInRun(min, more, b[1..]);
    }
  }

  /** So, whatever the connection did before, a peer that stops taking its data is dropped after that if
      and only if what the window held when it stopped dooms it. */
  lemma StalledRun(min: nat, moving: seq<Check>, stalled: seq<Check>)
    requires Stalled(stalled)
    ensures (exists k :: |moving| < k <= |moving + stalled| && Run(min, (moving + stalled)[..k]).1 != Fine)
            <==> Doomed(Run(min, moving).0, min, stalled)
  {
    DroppedInRun(min, moving, stalled);
    StalledIsDroppedIff(Run(min, moving).0, min, stalled);
  }

  /** A peer that takes nothing from the start is never dropped. */
  lemma StalledIsNotDropped(min: nat, cs: seq<Check>, k: nat)
    requires Stalled(cs) && k <= |cs|
    ensures Run(min, cs[..k]).1 == Fine
  {
    assert [] + cs == cs;
    StalledRun(min, [], cs);
  }

  /** Nor is one that has taken a byte before it stops. */
  lemma OneByteIsEnough(min: nat, at: int, left: nat, cs: seq<Check>, k: nat)
    requires Stalled(cs) && k <= |cs| + 1
    ensures Run(min, ([Check(at, 1, left, true)] + cs)[..k]).1 == Fine
  {
    var one := [Check(at, 1, left, true)];
    assert one[..0] == [] && one[..1] == one;
    assert Run(min, one) == (Window(1, at, []), Fine);
    StalledRun(min, one, cs);
    if k > 0 {
      assert (one + cs)[..1] == one;
    }
  }

  // ----- who is dropped -----

  /** Checks on a peer that takes a little each time: over the limit throughout, no more than gap seconds
      apart, and with no more than min bytes sent in all. */
  ghost predicate Trickles(min: nat, gap: nat, cs: seq<Check>) {
    && InOrder(cs) && Sent(cs) <= min
    && (forall k :: 0 <= k < |cs| ==> cs[k].over && cs[k].sent > 0)
    && (forall k :: 1 <= k < |cs| ==> cs[k].at - cs[k - 1].at <= gap)
  }

  /** How far a window that has not dropped such a peer can be: fewer than three samples, and no more than
      five seconds and two gaps for each of them behind the start. */
  ghost predicate Keeping(w: Window, min: nat, gap: nat, start: int, last: int) {
    var k := |w.checkSend|;
    && k <= 2 && (forall i :: 0 <= i < k ==> w.checkSend[i].sent <= min)
    && if w.sendBufferSize == 0 then last < start + k * (5 + 2 * gap) - gap
       else w.lastCheckTime <= start + k * (5 + 2 * gap) && last - w.lastCheckTime < 5
  }

  lemma StepKeeping(w: Window, min: nat, gap: nat, start: int, last: int, c: Check)
    requires Keeping(w, min, gap, start, last) && c.over && 0 < c.sent && w.sendBufferSize + c.sent <= min
    requires last <= c.at <= last + gap && Step(w, min, c).1 != Slow
    ensures Step(w, min, c).1 == Fine && Keeping(Step(w, min, c).0, min, gap, start, c.at)
  {
    if Samples(w, c) {
      StepSamples(w, min, c);
    }
  }

  lemma {:induction false} RunKeeping(min: nat, gap: nat, cs: seq<Check>)
    requires Trickles(min, gap, cs) && cs != []
    requires forall k :: 0 <= k <= |cs| ==> Run(min, cs[..k]).1 != Slow
    ensures Keeping(Run(min, cs).0, min, gap, cs[0].at, cs[|cs| - 1].at)
    ensures Run(min, cs).0.sendBufferSize <= Sent(cs)
  {
    assert cs[..|cs|] == cs;
    var init, c := cs[..|cs| - 1], cs[|cs| - 1];
    if init == [] {
      assert cs[..0] == [] && Run(min, cs) == Step(START, min, c);
    } else {
      assert forall k :: 0 <= k <= |init| ==> init[..k] == cs[..k];
      RunKeeping(min, gap, init);
      StepKeeping(Run(min, init).0, min, gap, cs[0].at, init[|init| - 1].at, c);
    }
  }

  /** And such a peer is dropped: once the checks reach over 15 seconds and four gaps, one of them has
      found it slow. */
  lemma TrickleIsDropped(min: nat, gap: nat, cs: seq<Check>) returns (k: nat)
    requires Trickles(min, gap, cs) && cs != [] && cs[|cs| - 1].at - cs[0].at >= 15 + 4 * gap
    ensures k <= |cs| && Run(min, cs[..k]).1 == Slow
  {
    if forall n :: 0 <= n <= |cs| ==> Run(min, cs[..n]).1 != Slow {
      RunKeeping(min, gap, cs);
      assert false;
    }
    k :| k <= |cs| && Run(min, cs[..k]).1 == Slow;
  }

  /** Checks on a peer whose backlog does not shrink: over the limit throughout, no more than gap seconds
      apart, and something sent in each. */
  ghost predicate Swells(gap: nat, cs: seq<Check>) {
    && InOrder(cs)
    && (forall k :: 0 <= k < |cs| ==> cs[k].over && cs[k].sent > 0)
    && (forall k :: 1 <= k < |cs| ==> cs[k].at - cs[k - 1].at <= gap && cs[k - 1].left <= cs[k].left)
  }

  /** How far a window that has not dropped such a peer can be: fewer than twelve samples, none smaller than the
      one before it, and no more than five seconds and two gaps for each of them behind the start. */
  ghost predicate Lagging(w: Window, gap: nat, start: int, last: int, left: nat) {
    var k := |w.checkSend|;
    && k <= 11 && (forall i :: 1 <= i < k ==> w.checkSend[i - 1].left <= w.checkSend[i].left)
    && (k > 0 ==> w.checkSend[k - 1].left <= left)
    && if w.sendBufferSize == 0 then last < start + k * (5 + 2 * gap) - gap
       else w.lastCheckTime <= start + k * (5 + 2 * gap) && last - w.lastCheckTime < 5
  }

  lemma StepLagging(w: Window, min: nat, gap: nat, start: int, last: int, left: nat, c: Check)
    requires Lagging(w, gap, start, last, left) && c.over && 0 < c.sent && left <= c.left
    requires last <= c.at <= last + gap && Step(w, min, c).1 == Fine
    ensures Lagging(Step(w, min, c).0, gap, start, c.at, c.left)
  {
    if Samples(w, c) {
      StepSamples(w, min, c);
      OneMoreSample(w.checkSend, Sampled(w.sendBufferSize + c.sent, c.left));
      LaterBy(|w.checkSend|, gap);
    }
  }

  lemma OneMoreSample(samples: seq<Sampled>, x: Sampled)
    requires forall i :: 1 <= i < |samples| ==> samples[i - 1].left <= samples[i].left
    requires samples != [] ==> samples[|samples| - 1].left <= x.left
    ensures var s := samples + [x];
            (forall i :: 1 <= i < |s| ==> s[i - 1].left <= s[i].left) && (|s| >= 12 ==> Growing(s))
  {
    var s := samples + [x];
    forall i | 1 <= i < |s| ensures s[i - 1].left <= s[i].left {
      assert s[i - 1] == samples[i - 1];
    }
  }

  lemma LaterBy(k: nat, gap: nat)
    ensures (k + 1) * (5 + 2 * gap) == k * (5 + 2 * gap) + 5 + 2 * gap
    ensures k <= 11 ==> k * (5 + 2 * gap) <= 55 + 22 * gap
  {
    if k <= 11 {
      assert k * (5 + 2 * gap) + (11 - k) * (5 + 2 * gap) == 11 * (5 + 2 * gap);
    }
  }

  lemma {:induction false} RunLagging(min: nat, gap: nat, cs: seq<Check>)
    requires Swells(gap, cs) && cs != []
    requires forall k :: 0 <= k <= |cs| ==> Run(min, cs[..k]).1 == Fine
    ensures Lagging(Run(min, cs).0, gap, cs[0].at, cs[|cs| - 1].at, cs[|cs| - 1].left)
  {
    assert cs[..|cs|] == cs;
    var init, c := cs[..|cs| - 1], cs[|cs| - 1];
    if init == [] {
      assert cs[..0] == [] && Run(min, cs) == Step(START, min, c);
    } else {
      assert forall k :: 0 <= k <= |init| ==> init[..k] == cs[..k];
      RunLagging(min, gap, init);
      StepLagging(Run(min, init).0, min, gap, cs[0].at, init[|init| - 1].at, init[|init| - 1].left, c);
    }
  }

  lemma TooLate(w: Window, gap: nat, start: int, last: int, left: nat)
    requires Lagging(w, gap, start, last, left)
    ensures last - start < 60 + 22 * gap
  {
    LaterBy(|w.checkSend|, gap);
  }

  /** And a peer whose backlog does not shrink is dropped, as slow or as accumulating, by the time the checks
      reach over 60 seconds and 22 gaps. */
  lemma SwellingIsDropped(min: nat, gap: nat, cs: seq<Check>) returns (k: nat)
    requires Swells(gap, cs) && cs != [] && cs[|cs| - 1].at - cs[0].at >= 60 + 22 * gap
    ensures k <= |cs| && Run(min, cs[..k]).1 != Fine
  {
    if forall n :: 0 <= n <= |cs| ==> Run(min, cs[..n]).1 == Fine {
      RunLagging(min, gap, cs);
      TooLate(Run(min, cs).0, gap, cs[0].at, cs[|cs| - 1].at, cs[|cs| - 1].left);
      assert false;
    }
    k :| k <= |cs| && Run(min, cs[..k]).1 != Fine;
  }

  // ----- sendBuffer() itself -----

  /** How many whole chunks there are in the first n bytes. */
  function Whole(chunks: seq<seq<byte>>, n: nat): (k: nat)
    ensures k <= |chunks|
  {
    if chunks == [] || n < |chunks[0]| then 0 else 1 + Whole(chunks[1..], n - |chunks[0]|)
  }

  lemma {:induction false} WholeAt(chunks: seq<seq<byte>>, i: nat, n: nat)
    requires i <= |chunks| && (i < |chunks| ==> n < |chunks[i]|) && (i == |chunks| ==> n == 0)
    ensures Whole(chunks, |NetworkBuffers.Flat(chunks[..i])| + n) == i
  {
    if i > 0 {
      assert chunks[..i][1..] == chunks[1..][..i - 1];
      WholeAt(chunks[1..], i - 1, n);
    }
  }

  /** What the socket takes of a backlog: it is offered a chunk at a time, and no more after one that it does
      not take whole. */
  function TakenOf(chunks: seq<seq<byte>>, kernel: seq<Kernel>): nat {
    if chunks == [] || kernel == [] || !kernel[0].Took? then 0
    else if kernel[0].n < |chunks[0]| then kernel[0].n
    else |chunks[0]| + TakenOf(chunks[1..], kernel[1..])
  }

  /** Whether it reports an error when it is offered one. */
  predicate BreaksOn(chunks: seq<seq<byte>>, kernel: seq<Kernel>) {
    chunks != [] && kernel != []
    && (kernel[0].Broken? || (kernel[0].Took? && kernel[0].n >= |chunks[0]| && BreaksOn(chunks[1..], kernel[1..])))
  }

  /** Chunks go out as long as each is taken whole; the first that is not is the last, and an error at it is one
      of the whole call. */
  lemma {:induction false} GoesUpTo(chunks: seq<seq<byte>>, whole: seq<Kernel>, rest: seq<Kernel>)
    requires |whole| <= |chunks| && forall i :: 0 <= i < |whole| ==> whole[i].Took? && whole[i].n >= |chunks[i]|
    ensures var k, out := |whole|, |NetworkBuffers.Flat(chunks[..|whole|])|;
            if k == |chunks| || rest == [] || rest[0].Busy? then
              TakenOf(chunks, whole + rest) == out && !BreaksOn(chunks, whole + rest)
            else if rest[0].Broken? then TakenOf(chunks, whole + rest) == out && BreaksOn(chunks, whole + rest)
            else rest[0].n < |chunks[k]| ==>
                   TakenOf(chunks, whole + rest) == out + rest[0].n && !BreaksOn(chunks, whole + rest)
  {
    if whole == [] {
      assert whole + rest == rest;
    } else {
      assert (whole + rest)[1..] == whole[1..] + rest;
      assert chunks[..|whole|][1..] == chunks[1..][..|whole| - 1];
      GoesUpTo(chunks[1..], whole[1..], rest);
    }
  }

  /** k chunks and n bytes of the next are gone. */
  predicate Partly(was: seq<seq<byte>>, chunks: seq<seq<byte>>, k: nat, n: nat) {
    k <= |was|
    && if k == |was| then chunks == [] && n == 0 else n < |was[k]| && chunks == [was[k][n..]] + was[k + 1..]
  }

  lemma PartlyNext(was: seq<seq<byte>>, chunks: seq<seq<byte>>, k: nat, n: nat)
    requires Partly(was, chunks, k, 0) && chunks != [] && forall i :: 0 <= i < |chunks| ==> chunks[i] != []
    ensures k < |was| && chunks[0] == was[k]
    ensures n < |chunks[0]| ==> Partly(was, [chunks[0][n..]] + chunks[1..], k, n)
    ensures Partly(was, chunks[1..], k + 1, 0)
    ensures |NetworkBuffers.Flat(was[..k + 1])| == |NetworkBuffers.Flat(was[..k])| + |chunks[0]|
  {
    NetworkBuffers.FlatTake(was, k);
    assert chunks[1..] == was[k + 1..];
    if k + 1 < |was| {
      assert chunks[1] == was[k + 1] && was[k + 1][0..] == was[k + 1];
      assert was[k + 1..] == [was[k + 1]] + was[k + 2..];
    }
  }

  lemma PartlyStarts(was: seq<seq<byte>>)
    requires forall i :: 0 <= i < |was| ==> was[i] != []
    ensures Partly(was, was, 0, 0) && NetworkBuffers.Flat(was[..0]) == []
  {
    if was != [] {
      assert was[0][0..] == was[0] && was == [was[0]] + was[1..];
    }
  }

  /** addBuffer(): an empty packet is not queued. */
  function Queued(chunks: seq<seq<byte>>, bytes: seq<byte>): seq<seq<byte>> {
    if bytes == [] then chunks else chunks + [bytes]
  }

  lemma QueuedFlat(chunks: seq<seq<byte>>, bytes: seq<byte>)
    ensures NetworkBuffers.Flat(Queued(chunks, bytes)) == NetworkBuffers.Flat(chunks) + bytes
  {
    if bytes == [] {
      assert NetworkBuffers.Flat(chunks) + [] == NetworkBuffers.Flat(chunks);
    } else {
      NetworkBuffers.FlatAppend(chunks, [bytes]);
      NetworkBuffers.FlatOne(bytes);
    }
  }

  class Connection {
    const limit: nat
    const min: nat
    var chunks: seq<seq<byte>>
    var closing: bool
    /** The socket is valid. */
    var open: bool
    var sendBufferSize: nat
    var lastCheckTime: int
    var checkSend: seq<Sampled>
    /** This connection's share of the adapter's count of packets to send. */
    var queued: int
    /** The part of it that nothing takes out again: empty packets, which are counted but not queued, packets
        in a backlog that was thrown away, and packets sent on a closed socket. */
    ghost var lost: nat
    ghost var wire: seq<byte>

    function Value(): Window
      reads this
    {
      Window(sendBufferSize, lastCheckTime, checkSend)
    }

    ghost predicate Valid()
      reads this
    {
      queued == lost + (if open then |chunks| else 0) && forall k :: 0 <= k < |chunks| ==> chunks[k] != []
    }

    constructor (iLimit: nat, iMin: nat)
      ensures Valid() && open && chunks == [] && queued == 0 && lost == 0 && Value() == START
      ensures limit == iLimit && min == iMin && !closing && wire == []
    {
      limit, min, chunks, closing, open := iLimit, iMin, [], false, true;
      queued, lost, wire := 0, 0, [];
      sendBufferSize, lastCheckTime, checkSend := 0, 0, [];
    }

    /** send(), for TCP: the packet is counted, queued unless it is empty, and the buffer is sent. */
    method Send(bytes: seq<byte>, kernel: seq<Kernel>, now: int) returns (ret: int)
      requires Valid()
      modifies this
      ensures Valid() && closing == old(closing) && open == old(open)
      ensures ret in {0, -1, -2, -4, -5} && (old(!open) && bytes != [] ==> ret == -1)
      ensures ret in {0, -1, -2} ==> wire + NetworkBuffers.Flat(chunks) == old(wire + NetworkBuffers.Flat(chunks)) + bytes
      ensures ret in {-4, -5} ==> chunks == [] && wire <= old(wire + NetworkBuffers.Flat(chunks)) + bytes
      ensures |wire| == |old(wire)| + if open then TakenOf(Queued(old(chunks), bytes), kernel) else 0
      ensures ret == -1 <==> if open then BreaksOn(Queued(old(chunks), bytes), kernel) else Queued(old(chunks), bytes) != []
      ensures var backlog := Queued(old(chunks), bytes);
              lost == old(lost) + (if bytes == [] || old(!open) then 1 else 0)
                      + if ret in {-4, -5} then |backlog| - Whole(backlog, |wire| - |old(wire)|) else 0
    {
      queued := queued + 1;
      if bytes == [] || !open {
        lost := lost + 1;
      }
      QueuedFlat(chunks, bytes);
      assert wire + (NetworkBuffers.Flat(chunks) + bytes) == (wire + NetworkBuffers.Flat(chunks)) + bytes;
      if bytes != [] {
        chunks := chunks + [bytes];
      }
      ret := SendBuffer(kernel, now);
    }

    /** The sending loop: hands the socket a chunk at a time until it takes less than the whole; a closed
        socket takes nothing. */
    method SendChunks(kernel: seq<Kernel>) returns (alive: bool, sent: nat)
      requires Valid()
      modifies this`chunks, this`queued, this`wire
      ensures Valid() && wire + NetworkBuffers.Flat(chunks) == old(wire + NetworkBuffers.Flat(chunks)) && |wire| == |old(wire)| + sent
      ensures |old(chunks)| - |chunks| == Whole(old(chunks), sent)
      ensures old(!open) ==> chunks == old(chunks) && sent == 0 && alive == (chunks == [])
      ensures old(open) ==> sent == TakenOf(old(chunks), kernel) && alive == !BreaksOn(old(chunks), kernel)
    {
      if !open {
        PartlyStarts(chunks);
        WholeAt(chunks, 0, 0);
        return chunks == [], 0;
      }
      alive, sent := SendOpen(kernel);
    }

    method SendOpen(kernel: seq<Kernel>) returns (alive: bool, sent: nat)
      requires Valid() && open
      modifies this`chunks, this`queued, this`wire
      ensures Valid() && wire + NetworkBuffers.Flat(chunks) == old(wire + NetworkBuffers.Flat(chunks)) && |wire| == |old(wire)| + sent
      ensures |old(chunks)| - |chunks| == Whole(old(chunks), sent)
      ensures sent == TakenOf(old(chunks), kernel) && alive == !BreaksOn(old(chunks), kernel)
    {
      sent := 0;
      alive := true;
      var i := 0;
      ghost var k, part, later, was := 0, 0, kernel, chunks;
      PartlyStarts(chunks);
      while chunks != []
        invariant Valid() && i <= |kernel| && later == kernel[i..] && part == 0 && alive
        invariant TakenOf(was, kernel) == sent + TakenOf(chunks, later) && BreaksOn(was, kernel) == BreaksOn(chunks, later)
        invariant Partly(was, chunks, k, 0) && sent == |NetworkBuffers.Flat(was[..k])|
        invariant wire + NetworkBuffers.Flat(chunks) == old(wire + NetworkBuffers.Flat(chunks)) && |wire| == |old(wire)| + sent
        decreases |kernel| - i
      {
        if i == |kernel| || kernel[i].Busy? {
          break;
        }
        assert later[0] == kernel[i];
        if kernel[i].Broken? {
          alive := false;
          break;
        }
        var size := |chunks[0]|;
        var n := if kernel[i].n < size then kernel[i].n else size;
        PartlyNext(was, chunks, k, n);
        MoveHeader(n);
        sent := sent + n;
        if n < size {
          part := n;
          break;
        }
        i, k, later := i + 1, k + 1, later[1..];
      }
      WholeAt(was, k, part);
    }

    method MoveHeader(n: nat)
      requires Valid() && open && chunks != [] && n <= |chunks[0]|
      modifies this`chunks, this`queued, this`wire
      ensures Valid() && wire == old(wire) + old(chunks[0])[..n]
      ensures wire + NetworkBuffers.Flat(chunks) == old(wire + NetworkBuffers.Flat(chunks))
      ensures chunks == if n == |old(chunks[0])| then old(chunks)[1..] else [old(chunks[0])[n..]] + old(chunks)[1..]
    {
      var data, rest := chunks[0], chunks[1..];
      assert (wire + data[..n]) + (data[n..] + NetworkBuffers.Flat(rest)) == wire + (data + NetworkBuffers.Flat(rest)) by {
        assert data == data[..n] + data[n..];
      }
      wire := wire + data[..n];
      if n == |data| {
        assert data[n..] + NetworkBuffers.Flat(rest) == NetworkBuffers.Flat(rest);
        chunks := rest;
        queued := queued - 1;
      } else {
        chunks := [data[n..]] + rest;
        assert chunks[1..] == rest;
      }
    }

    /** sendBuffer(), for TCP. A dropped connection loses its backlog, and the packets in it stay in the
        adapter's count. */
    method SendBuffer(kernel: seq<Kernel>, now: int) returns (ret: int)
      requires Valid()
      modifies this
      ensures Valid() && ret in {0, -1, -2, -4, -5} && closing == old(closing) && open == old(open)
      ensures ret in {0, -1, -2} ==> wire + NetworkBuffers.Flat(chunks) == old(wire + NetworkBuffers.Flat(chunks))
      ensures ret == -2 ==> closing && chunks == []
      ensures ret in {-4, -5} ==> chunks == [] && wire <= old(wire + NetworkBuffers.Flat(chunks))
      ensures |wire| == |old(wire)| + if open then TakenOf(old(chunks), kernel) else 0
      ensures ret == -1 <==> if open then BreaksOn(old(chunks), kernel) else old(chunks) != []
      ensures ret == -2 <==> ret != -1 && closing && |wire| == |old(wire + NetworkBuffers.Flat(chunks))|
      ensures ret in {0, -4, -5} ==> |old(wire + NetworkBuffers.Flat(chunks))| >= |wire|
      ensures ret in {0, -4, -5} ==>
                var c := Check(now, |wire| - |old(wire)|, |old(NetworkBuffers.Flat(chunks))|, |old(wire + NetworkBuffers.Flat(chunks))| - |wire| > limit);
                Value() == Step(old(Value()), min, c).0
                && ret == match Step(old(Value()), min, c).1 case Fine => 0 case Slow => -5 case Accumulating => -4
      ensures lost == old(lost) + if ret in {-4, -5} then |old(chunks)| - Whole(old(chunks), |wire| - |old(wire)|) else 0
      ensures ret in {-4, -5} ==> open && lost > old(lost)
    {
      var left := |NetworkBuffers.Flat(chunks)|;
      var alive, sent := SendChunks(kernel);
      if !alive {
        return -1;
      }
      if closing && chunks == [] {
        return -2;
      }
      ret := CheckWindow(now, sent, left, |NetworkBuffers.Flat(chunks)| > limit);
      if ret != 0 {
        lost := lost + |chunks|;
        chunks := [];
      }
    }

    /** close(): takes the packets that wait out of the adapter's count, as far as they are still there. What
        was lost stays. */
    method Close()
      requires Valid()
      modifies this`queued, this`open
      ensures Valid() && !open && queued == lost
    {
      if open {
        queued := queued - |chunks|;
        open := false;
      }
    }

    method CheckWindow(now: int, sent: nat, left: nat, over: bool) returns (ret: int)
      modifies this`sendBufferSize, this`lastCheckTime, this`checkSend
      ensures var c := Check(now, sent, left, over);
              Value() == Step(old(Value()), min, c).0
                && ret == match Step(old(Value()), min, c).1 case Fine => 0 case Slow => -5 case Accumulating => -4
    {
      if !over {
        sendBufferSize, lastCheckTime, checkSend := 0, now, [];
        return 0;
      }
      if sendBufferSize == 0 {
        lastCheckTime := now;
      }
      sendBufferSize := sendBufferSize + sent;
      if now - lastCheckTime < 5 {
        return 0;
      }
      lastCheckTime := now;
      checkSend := checkSend + [Sampled(sendBufferSize, left)];
      sendBufferSize := 0;
      var slow := IsSlow(checkSend);
      if slow {
        return -5;
      }
      if |checkSend| >= 12 {
        var accumulate := IsGrowing(checkSend);
        if accumulate {
          return -4;
        }
        checkSend := checkSend[1..];
      }
      ret := 0;
    }

    method IsSlow(samples: seq<Sampled>) returns (slow: bool)
      ensures slow == TooSlow(samples, min)
    {
      if |samples| < 3 {
        return false;
      }
      slow := true;
      var i := |samples| - 1;
      while i >= |samples| - 3
        invariant |samples| - 4 <= i < |samples|
        invariant slow == forall k :: i < k < |samples| ==> samples[k].sent <= min
      {
        if samples[i].sent > min {
          slow := false;
        }
        i := i - 1;
      }
    }

    method IsGrowing(samples: seq<Sampled>) returns (accumulate: bool)
      requires |samples| >= 12
      ensures accumulate == Growing(samples)
    {
      var i := |samples| - 1;
      while i >= 1
        invariant 0 <= i < |samples|
        invariant forall k :: i < k < |samples| ==> samples[k - 1].left <= samples[k].left
      {
        if samples[i].left < samples[i - 1].left {
          return false;
        }
        i := i - 1;
      }
      accumulate := true;
    }
  }
}
