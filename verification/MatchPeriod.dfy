/** The wildcard match for dotted names, whose loop never goes back, against what a wildcard means. */
module MatchPeriods {

  /** What a pattern means: a star stands for any text without dots that is not empty. */
  ghost predicate Denotes(s: string, pat: string)
    decreases |pat|
  {
    if pat == [] then s == []
    else if pat[0] == '*' then exists k :: 0 < k <= |s| && '.' !in s[..k] && Denotes(s[k..], pat[1..])
    else s != [] && s[0] == pat[0] && Denotes(s[1..], pat[1..])
  }

  /** How many characters come before the first dot. */
  function Label(s: string): (k: nat)
    ensures k <= |s| && '.' !in s[..k] && (k < |s| ==> s[k] == '.')
  {
    if s == [] || s[0] == '.' then 0
    else
      var k := Label(s[1..]);
      assert s[..k + 1] == [s[0]] + s[1..][..k];
      k + 1
  }

  /** What the loop makes of them: a star takes everything up to the next dot. */
  predicate Greedy(s: string, pat: string)
    decreases |pat|
  {
    if s == [] || pat == [] then s == [] && pat == []
    else if pat[0] == '*' then s[0] != '.' && Greedy(s[Label(s)..], pat[1..])
    else pat[0] == s[0] && Greedy(s[1..], pat[1..])
  }

  /** Every star is followed by a dot or ends the pattern. */
  predicate StarsEnd(pat: string) {
    forall i :: 0 <= i < |pat| && pat[i] == '*' ==> i + 1 == |pat| || pat[i + 1] == '.'
  }

  method MatchPeriod(s: string, pat: string) returns (r: bool)
    ensures s == [] ==> !r
    ensures s != [] && pat == [] ==> r
    ensures s != [] && pat != [] ==> r == Greedy(s, pat)
  {
    if s == [] {
      return false;
    }
    if pat == [] {
      return true;
    }
    if '*' !in pat {
      PlainPattern(s, pat);
      return s == pat;
    }
    var sIndex, patIndex := 0, 0;
    assert s[0..] == s && pat[0..] == pat;
    while sIndex < |s| && patIndex < |pat|
      invariant 0 <= sIndex <= |s| && 0 <= patIndex <= |pat|
      invariant Greedy(s[sIndex..], pat[patIndex..]) == Greedy(s, pat)
      decreases |pat| - patIndex
    {
      assert pat[patIndex..][1..] == pat[patIndex + 1..];
      if pat[patIndex] == '*' {
        if s[sIndex] == '.' {
          return false;
        }
        sIndex := SkipLabel(s, sIndex);
        patIndex := patIndex + 1;
      } else {
        if pat[patIndex] != s[sIndex] {
          return false;
        }
        assert s[sIndex..][1..] == s[sIndex + 1..];
        sIndex, patIndex := sIndex + 1, patIndex + 1;
      }
    }
    r := sIndex == |s| && patIndex == |pat|;
  }

  method SkipLabel(s: string, from: nat) returns (to: nat)
    requires from <= |s|
    ensures to <= |s| && to == from + Label(s[from..]) && s[from..][Label(s[from..])..] == s[to..]
  {
    to := from;
    while to < |s| && s[to] != '.'
      invariant from <= to <= |s| && from + Label(s[from..]) == to + Label(s[to..])
    {
      assert s[to..][1..] == s[to + 1..];
      to := to + 1;
    }
  }

  lemma {:induction false} PlainPattern(s: string, pat: string)
    requires '*' !in pat
    ensures Greedy(s, pat) == (s == pat)
    decreases |pat|
  {
    if s != [] && pat != [] {
      assert pat[0] in pat && forall c :: c in pat[1..] ==> c in pat;
      PlainPattern(s[1..], pat[1..]);
      assert s == [s[0]] + s[1..] && pat == [pat[0]] + pat[1..];
    }
  }

  /** Where every star is followed by a dot or ends the pattern, there is only one way to read it. */
  lemma {:induction false} GreedyIsRight(s: string, pat: string)
    requires StarsEnd(pat)
    ensures Greedy(s, pat) == Denotes(s, pat)
    decreases |pat|
  {
    if pat != [] {
      var rest := pat[1..];
      forall i | 0 <= i < |rest| && rest[i] == '*' ensures i + 1 == |rest| || rest[i + 1] == '.' {
        assert pat[i + 1] == '*';
      }
      if pat[0] != '*' {
        if s != [] {
          GreedyIsRight(s[1..], rest);
        }
      } else {
        StarTakesLabel(s, rest);
        GreedyIsRight(s[Label(s)..], rest);
      }
    }
  }

  lemma StarTakesLabel(s: string, rest: string)
    requires rest == [] || rest[0] == '.'
    ensures Denotes(s, ['*'] + rest) <==> Label(s) > 0 && Denotes(s[Label(s)..], rest)
  {
    var pat := ['*'] + rest;
    assert pat[1..] == rest;
    var n := Label(s);
    assert forall k :: 0 <= k < n ==> s[k] in s[..n];
    forall k | 0 < k <= |s| && '.' !in s[..k] ensures k <= n {}
  }

  /** A star followed by anything else takes it too, so such a pattern matches nothing at all. */
  lemma {:induction false} BadStarMatchesNothing(s: string, pat: string, i: nat)
    requires i + 1 < |pat| && pat[i] == '*' && pat[i + 1] != '.'
    ensures !Greedy(s, pat)
    decreases |pat|
  {
    if s != [] {
      if i > 0 {
        BadStarMatchesNothing(if pat[0] == '*' then s[Label(s)..] else s[1..], pat[1..], i - 1);
      } else {
        var t := s[Label(s)..];
        var rest := pat[1..];
        assert rest[0] == pat[1];
        assert t != [] ==> t[0] == '.';
        assert !Greedy(t, rest);
      }
    }
  }

  /** A text for a pattern: a letter for each star. */
  function Sample(pat: string): string {
    if pat == [] then [] else [if pat[0] == '*' then 'a' else pat[0]] + Sample(pat[1..])
  }

  lemma {:induction false} SampleDenoted(pat: string)
    ensures Denotes(Sample(pat), pat)
  {
    if pat != [] {
      SampleDenoted(pat[1..]);
      var s := Sample(pat);
      assert s[1..] == Sample(pat[1..]);
      if pat[0] == '*' {
        assert s[..1] == ['a'];
        assert '.' !in s[..1] && Denotes(s[1..], pat[1..]);
      }
    }
  }

  /** For a pattern the loop decides every text as the pattern means it exactly when each of its stars is
      followed by a dot or ends it. */
  lemma LoopIsRightIff(pat: string)
    requires pat != []
    ensures (forall s: string :: s != [] ==> Greedy(s, pat) == Denotes(s, pat)) <==> StarsEnd(pat)
  {
    if StarsEnd(pat) {
      forall s: string | s != [] ensures Greedy(s, pat) == Denotes(s, pat) {
        GreedyIsRight(s, pat);
      }
    } else {
      var i: nat :| i < |pat| && pat[i] == '*' && !(i + 1 == |pat| || pat[i + 1] == '.');
      BadStarMatchesNothing(Sample(pat), pat, i);
      SampleDenoted(pat);
    }
  }
}
