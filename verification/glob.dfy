/** What `*` and `?` mean. */
module Glob {

  /** `*` stands for any characters, `?` for any one; every other character for itself. */
  ghost predicate Matches(w: string, s: string) {
    if w == "" then s == ""
    else if w[0] == '*' then exists k :: 0 <= k <= |s| && Matches(w[1..], s[k..])
    else s != "" && (w[0] == s[0] || w[0] == '?') && Matches(w[1..], s[1..])
  }

  /** `c` lies at position `p`, each `?` of it over any character. */
  predicate MatchesAt(s: string, p: nat, c: string) {
    p + |c| <= |s| && forall i | 0 <= i < |c| :: c[i] == '?' || s[p + i] == c[i]
  }

  predicate StarFree(w: string) {
    forall i | 0 <= i < |w| :: w[i] != '*'
  }

  /** A part without stars in front. */
  lemma {:induction false} LiteralFirst(lit: string, rest: string, s: string)
    requires StarFree(lit)
    ensures Matches(lit + rest, s) <==> MatchesAt(s, 0, lit) && Matches(rest, s[|lit|..])
  {
    if lit == "" {
      assert lit + rest == rest && s[0..] == s;
    } else {
      var w := lit + rest;
      assert w[1..] == lit[1..] + rest;
      if s != "" {
        LiteralFirst(lit[1..], rest, s[1..]);
        if |lit| <= |s| {
          assert s[1..][|lit| - 1..] == s[|lit|..];
        }
        FirstAndRest(lit, s);
      }
    }
  }

  lemma FirstAndRest(lit: string, s: string)
    requires lit != "" && s != ""
    ensures MatchesAt(s, 0, lit) <==> (lit[0] == s[0] || lit[0] == '?') && MatchesAt(s[1..], 0, lit[1..])
  {
    if (lit[0] == s[0] || lit[0] == '?') && MatchesAt(s[1..], 0, lit[1..]) {
      forall i | 0 <= i < |lit|
        ensures lit[i] == '?' || s[i] == lit[i]
      {
        if i > 0 {
          assert lit[1..][i - 1] == lit[i];
        }
      }
    }
    if MatchesAt(s, 0, lit) {
      forall i | 0 <= i < |lit| - 1
        ensures lit[1..][i] == '?' || s[1..][i] == lit[1..][i]
      {
        assert lit[i + 1] == '?' || s[0 + (i + 1)] == lit[i + 1];
      }
    }
  }

  /** A star first: the rest may begin anywhere. */
  lemma StarFirst(w: string, s: string, j: nat)
    requires w != "" && w[0] == '*' && j <= |s|
    ensures Matches(w, s[j..]) <==> exists k :: j <= k <= |s| && Matches(w[1..], s[k..])
  {
    var t := s[j..];
    if Matches(w, t) {
      var k :| 0 <= k <= |t| && Matches(w[1..], t[k..]);
      assert t[k..] == s[j + k..];
    }
    if k :| j <= k <= |s| && Matches(w[1..], s[k..]) {
      assert t[k - j..] == s[k..];
    }
  }
}
