/** `wildcmpex` of SbieUtils.cpp.  Strings are without their terminating null; at the end of one
    the code reads the null. */
module Wildcard {
  import opened Glob

  const NUL: char := '\0'

  function At(s: string, i: nat): char {
    if i < |s| then s[i] else NUL
  }

  predicate NoNul(s: string) {
    forall i | 0 <= i < |s| :: s[i] != NUL
  }

  /** The part after the last star taken, tried from position `k` of the string or later. */
  ghost predicate Later(wild: string, mp: nat, s: string, k: nat)
    requires mp <= |wild|
  {
    exists j :: k <= j <= |s| && Matches(wild[mp..], s[j..])
  }

  lemma LaterNext(wild: string, mp: nat, s: string, k: nat)
    requires mp <= |wild| && k <= |s|
    ensures Later(wild, mp, s, k) <==> Matches(wild[mp..], s[k..]) || Later(wild, mp, s, k + 1)
  {
    hide Matches;
    if Later(wild, mp, s, k) {
      var j :| k <= j <= |s| && Matches(wild[mp..], s[j..]);
      assert j != k ==> Later(wild, mp, s, k + 1);
    }
  }

  /** Since the last star the code has matched `wild[mp..w]`, which has no star, at `p - (w - mp)`. */
  predicate Tried(wild: string, mp: nat, w: nat, s: string, start: nat)
    requires mp <= w <= |wild|
  {
    StarFree(wild[mp..w]) && MatchesAt(s, start, wild[mp..w])
  }

  /** One more character. */
  lemma TriedNext(wild: string, mp: nat, w: nat, s: string, start: nat)
    requires mp <= w < |wild| && Tried(wild, mp, w, s, start)
    requires start + (w - mp) < |s| && wild[w] != '*' && (wild[w] == s[start + (w - mp)] || wild[w] == '?')
    ensures Tried(wild, mp, w + 1, s, start)
  {
    assert wild[mp..w + 1] == wild[mp..w] + [wild[w]];
  }

  /** The rest from a later try reaches past where this one stands. */
  lemma LaterReaches(wild: string, mp: nat, w: nat, s: string, cp: nat)
    requires mp <= w <= |wild| && cp >= 1 && Tried(wild, mp, w, s, cp - 1) && Later(wild, mp, s, cp)
    ensures exists k :: cp - 1 + (w - mp) < k <= |s| && Matches(wild[w..], s[k..])
  {
    hide Matches;
    var j :| cp <= j <= |s| && Matches(wild[mp..], s[j..]);
    assert wild[mp..] == wild[mp..w] + wild[w..];
    LiteralFirst(wild[mp..w], wild[w..], s[j..]);
    assert s[j..][w - mp..] == s[j + (w - mp)..];
  }

  /** Going back only to the last star loses nothing. */
  lemma LastStarIsEnough(wild: string, mp: nat, w: nat, s: string, cp: nat)
    requires mp <= w < |wild| && wild[w] == '*' && cp >= 1 && Tried(wild, mp, w, s, cp - 1) && Later(wild, mp, s, cp)
    ensures cp - 1 + (w - mp) <= |s| && Matches(wild[w..], s[cp - 1 + (w - mp)..])
  {
    hide Matches;
    LaterReaches(wild, mp, w, s, cp);
    var i := cp - 1 + (w - mp);
    var k :| i < k <= |s| && Matches(wild[w..], s[k..]);
    StarFirst(wild[w..], s, k);
    StarFirst(wild[w..], s, i);
  }

  /** A star taken. */
  lemma StarTaken(wild: string, w: nat, s: string, i: nat)
    requires w < |wild| && wild[w] == '*' && i <= |s|
    ensures Matches(wild[w..], s[i..]) <==> Matches(wild[w + 1..], s[i..]) || Later(wild, w + 1, s, i + 1)
  {
    hide Matches;
    StarFirst(wild[w..], s, i);
    assert wild[w..][1..] == wild[w + 1..];
    LaterNext(wild, w + 1, s, i);
  }

  lemma CharStep(wild: string, w: nat, s: string, i: nat)
    requires w <= |wild| && i < |s| && At(wild, w) != '*' && s[i] != NUL
    ensures Matches(wild[w..], s[i..]) <==> w < |wild| && (wild[w] == s[i] || wild[w] == '?') && Matches(wild[w + 1..], s[i + 1..])
  {
    if w < |wild| {
      assert wild[w..][1..] == wild[w + 1..] && s[i..][1..] == s[i + 1..];
    }
  }

  lemma StarsMatchNothing(wild: string, w: nat)
    requires w < |wild| && wild[w] == '*'
    ensures Matches(wild[w..], "") <==> Matches(wild[w + 1..], "")
  {
    assert wild[w..][1..] == wild[w + 1..];
    assert ""[0..] == "";
    if Matches(wild[w..], "") {
      var k :| 0 <= k <= |""| && Matches(wild[w..][1..], ""[k..]);
    }
  }

  /** True exactly when the string matches the pattern, for every pattern and every string; and it
      terminates. */
  method WildCmp(wild: string, s: string) returns (r: bool)
    requires NoNul(wild) && NoNul(s)
    ensures r <==> Matches(wild, s)
  {
    hide Matches, Tried, Later;
    var w, i := 0, 0;
    assert wild[0..] == wild && s[0..] == s;
    while i < |s| && At(wild, w) != '*'
      invariant 0 <= w <= |wild| && 0 <= i <= |s|
      invariant Matches(wild, s) <==> Matches(wild[w..], s[i..])
    {
      CharStep(wild, w, s, i);
      if At(wild, w) != s[i] && At(wild, w) != '?' {
        return false;
      }
      w := w + 1;
      i := i + 1;
    }
    var mp, cp := -1, 0;
    while i < |s|
      invariant 0 <= w <= |wild| && 0 <= i <= |s| && (mp == -1 ==> i < |s| ==> At(wild, w) == '*')
      invariant mp == -1 ==> (Matches(wild, s) <==> Matches(wild[w..], s[i..]))
      invariant mp != -1 ==> 0 < mp <= w && 1 <= cp <= |s| + 1 && i == cp - 1 + (w - mp) && Tried(wild, mp, w, s, cp - 1)
      invariant mp != -1 ==> (Matches(wild, s) <==> Matches(wild[w..], s[i..]) || Later(wild, mp, s, cp))
      decreases |wild| - mp, |s| + 1 - cp, |wild| - w
    {
      if At(wild, w) == '*' {
        if mp != -1 && Later(wild, mp, s, cp) {
          LastStarIsEnough(wild, mp, w, s, cp);
        }
        StarTaken(wild, w, s, i);
        w := w + 1;
        if w == |wild| {
          AllTaken(wild, s, i);
          return true;
        }
        mp := w;
        cp := i + 1;
        NothingTried(wild, mp, s, i);
      } else if At(wild, w) == s[i] || At(wild, w) == '?' {
        CharStep(wild, w, s, i);
        TriedNext(wild, mp, w, s, cp - 1);
        w := w + 1;
        i := i + 1;
      } else {
        CharStep(wild, w, s, i);
        LaterNext(wild, mp, s, cp);
        w := mp;
        i := cp;
        cp := cp + 1;
        NothingTried(wild, mp, s, i);
      }
    }
    if mp != -1 && Later(wild, mp, s, cp) {
      LaterReaches(wild, mp, w, s, cp);
    }
    assert s[i..] == "";
    while At(wild, w) == '*'
      invariant 0 <= w <= |wild|
      invariant Matches(wild, s) <==> Matches(wild[w..], "")
      decreases |wild| - w
    {
      StarsMatchNothing(wild, w);
      w := w + 1;
    }
    AtEnd(wild, w);
    return w == |wild|;
  }

  lemma NothingTried(wild: string, mp: nat, s: string, i: nat)
    requires mp <= |wild| && i <= |s|
    ensures Tried(wild, mp, mp, s, i)
  {
  }

  /** A star at the end of the pattern. */
  lemma AllTaken(wild: string, s: string, i: nat)
    requires i < |s|
    ensures Later(wild, |wild|, s, i + 1)
  {
    assert wild[|wild|..] == "" && s[|s|..] == "";
  }

  lemma AtEnd(wild: string, w: nat)
    requires w <= |wild| && At(wild, w) != '*'
    ensures Matches(wild[w..], "") <==> w == |wild|
  {
  }
}
