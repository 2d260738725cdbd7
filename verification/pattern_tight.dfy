/** Parts behind just two stars, which the search does not look for past a backslash: what the scans find of
    patterns with any number of parts. */
module PatternTight {
  import opened Glob
  import opened Pattern
  import opened PatternMatch

  /** The parts lie in `s` one behind the other from `i` on and end at `e`, and there is no backslash in front of a part that
      must not be searched for past one. */
  ghost predicate Tightly(parts: seq<Part>, s: string, i: nat, e: nat) {
    if parts == [] then e == i
    else exists p: nat :: i <= p && MatchesAt(s, p, parts[0].text) && Reaches(s, i, p, parts[0].noBackslash) && Tightly(parts[1..], s, p + |parts[0].text|, e)
  }

  ghost predicate Ends(pat: Pattern, s: string, i: nat, k: nat)
    requires k <= |pat.parts|
  {
    exists e: nat :: Tightly(pat.parts[k..], s, i, e) && (pat.starAtTail || e == |s|)
  }

  /** Without parts behind two stars that is any placement. */
  lemma {:induction false} TightIsPlain(parts: seq<Part>, s: string, i: nat, e: nat)
    requires forall k | 0 <= k < |parts| :: !parts[k].noBackslash
    ensures Tightly(parts, s, i, e) <==> EndsAt(parts, s, i, e)
  {
    if parts != [] {
      if p: nat :| i <= p && MatchesAt(s, p, parts[0].text) && Reaches(s, i, p, parts[0].noBackslash) && Tightly(parts[1..], s, p + |parts[0].text|, e) {
        TightIsPlain(parts[1..], s, p + |parts[0].text|, e);
      }
      if p: nat :| i <= p && MatchesAt(s, p, parts[0].text) && EndsAt(parts[1..], s, p + |parts[0].text|, e) {
        TightIsPlain(parts[1..], s, p + |parts[0].text|, e);
      }
    }
  }

  /** A part behind two stars has no backslash. */
  predicate Clear(part: Part) {
    part.noBackslash ==> '\\' !in part.text && '?' !in part.text
  }

  /** And occurrences of it do not overlap in `s`. */
  predicate PartApart(part: Part, s: string) {
    Clear(part) && forall p, q | 0 <= p < q <= |s| && MatchesAt(s, p, part.text) && MatchesAt(s, q, part.text) :: p + |part.text| <= q
  }

  predicate AllApart(pat: Pattern, s: string) {
    forall k | 0 <= k < |pat.parts| :: PartApart(pat.parts[k], s)
  }

  lemma EndsNow(pat: Pattern, s: string, i: nat, k: nat, p: nat)
    requires k < |pat.parts| && i <= p && MatchesAt(s, p, pat.parts[k].text) && Reaches(s, i, p, pat.parts[k].noBackslash)
    requires Ends(pat, s, p + |pat.parts[k].text|, k + 1)
    ensures Ends(pat, s, i, k)
  {
    var e: nat :| Tightly(pat.parts[k + 1..], s, p + |pat.parts[k].text|, e) && (pat.starAtTail || e == |s|);
    var q := pat.parts[k..];
    assert q[1..] == pat.parts[k + 1..] && q[0] == pat.parts[k];
    assert Tightly(q, s, i, e);
  }

  lemma EndsSomewhere(pat: Pattern, s: string, i: nat, k: nat) returns (p: nat)
    requires k < |pat.parts| && Ends(pat, s, i, k)
    ensures i <= p && MatchesAt(s, p, pat.parts[k].text) && Reaches(s, i, p, pat.parts[k].noBackslash)
    ensures Ends(pat, s, p + |pat.parts[k].text|, k + 1)
  {
    var e: nat :| Tightly(pat.parts[k..], s, i, e) && (pat.starAtTail || e == |s|);
    var q := pat.parts[k..];
    assert q[1..] == pat.parts[k + 1..];
    p :| i <= p && MatchesAt(s, p, q[0].text) && Reaches(s, i, p, q[0].noBackslash) && Tightly(q[1..], s, p + |q[0].text|, e);
  }

  lemma EndsIs(pat: Pattern, s: string, i: nat)
    ensures Ends(pat, s, i, |pat.parts|) <==> pat.starAtTail || i == |s|
  {
    assert pat.parts[|pat.parts|..] == [];
    assert Tightly([], s, i, i);
  }

  /** The text of a part behind two stars can be passed. */
  lemma ReachesPast(s: string, i: nat, p: nat, q: nat, part: Part)
    requires Clear(part) && i <= p && MatchesAt(s, p, part.text) && p + |part.text| <= q
    requires Reaches(s, i, p, part.noBackslash)
    ensures Reaches(s, i, q, part.noBackslash) <==> Reaches(s, p + |part.text|, q, part.noBackslash)
  {
    if part.noBackslash && NoBackslash(s, p + |part.text|, q) {
      forall k | i <= k < q
        ensures s[k] != '\\'
      {
        if p <= k < p + |part.text| {
          assert s[p + (k - p)] == part.text[k - p];
          assert part.text[k - p] in part.text;
        }
      }
    }
  }

  /** Where no part overlaps itself the scans find the parts if and only if they lie there. */
  lemma {:induction false} FindsTightly(pat: Pattern, s: string, i: nat, k: nat)
    requires PartsOk(pat) && k <= |pat.parts| && (i > 0 || pat.starAtHead) && AllApart(pat, s)
    ensures Finds(pat, s, i, k) <==> Ends(pat, s, i, k)
    decreases |pat.parts| - k, |s| - i
  {
    hide Ends, Finds, FirstFrom, MatchesAt, Reaches, PartApart;
    if k == |pat.parts| {
      FindsAll(pat, s, i);
      EndsIs(pat, s, i);
    } else {
      var part := pat.parts[k];
      var c := part.text;
      FindsStep(pat, s, i, k);
      FirstFromFinds(s, c, i, part.noBackslash);
      var p := FirstFrom(s, c, i, part.noBackslash);
      if p >= 0 {
        Inside(s, p, c);
        FindsTightly(pat, s, p + |c|, k + 1);
        FindsTightly(pat, s, p + |c|, k);
        Onwards(pat, s, i, k, p);
      }
      if Ends(pat, s, i, k) {
        var q := EndsSomewhere(pat, s, i, k);
        Inside(s, q, c);
      }
    }
  }

  lemma Inside(s: string, p: nat, c: string)
    requires MatchesAt(s, p, c)
    ensures p + |c| <= |s|
  {
  }

  /** The parts lie behind the first occurrence of this one, or from there on. */
  lemma Onwards(pat: Pattern, s: string, i: nat, k: nat, p: nat)
    requires PartsOk(pat) && k < |pat.parts| && PartApart(pat.parts[k], s) && FirstReached(s, i, pat.parts[k], p)
    ensures Ends(pat, s, i, k) <==> Ends(pat, s, p + |pat.parts[k].text|, k + 1) || Ends(pat, s, p + |pat.parts[k].text|, k)
  {
    hide Ends, MatchesAt, Reaches;
    var part := pat.parts[k];
    var c := part.text;
    if Ends(pat, s, i, k) {
      var q := EndsSomewhere(pat, s, i, k);
      Inside(s, q, c);
      if q > p {
        ReachesPast(s, i, p, q, part);
        EndsNow(pat, s, p + |c|, k, q);
      }
    }
    if Ends(pat, s, p + |c|, k + 1) {
      EndsNow(pat, s, i, k, p);
    }
    if Ends(pat, s, p + |c|, k) {
      var q := EndsSomewhere(pat, s, p + |c|, k);
      ReachesPast(s, i, p, q, part);
      EndsNow(pat, s, i, k, q);
    }
  }

  /** Without a star in front the first part has to lie at the start, but the others may follow any of its
      occurrences. */
  lemma FrontTightly(pat: Pattern, s: string)
    requires PartsOk(pat) && pat.parts != [] && !pat.starAtHead && !pat.parts[0].noBackslash && AllApart(pat, s)
    ensures var c := pat.parts[0].text;
      Finds(pat, s, 0, 0) <==> MatchesAt(s, 0, c) && exists q: nat :: MatchesAt(s, q, c) && Ends(pat, s, q + |c|, 1)
  {
    hide Ends, Finds, FirstFrom, MatchesAt;
    var c := pat.parts[0].text;
    FindsStep(pat, s, 0, 0);
    FirstFromFinds(s, c, 0, false);
    assert PartApart(pat.parts[0], s);
    if MatchesAt(s, 0, c) {
      assert FirstFrom(s, c, 0, false) == 0;
      FindsTightly(pat, s, |c|, 1);
      FindsTightly(pat, s, |c|, 0);
      if Ends(pat, s, |c|, 0) {
        var q := EndsSomewhere(pat, s, |c|, 0);
      }
      if q: nat :| MatchesAt(s, q, c) && Ends(pat, s, q + |c|, 1) {
        Inside(s, q, c);
        if q > 0 {
          EndsNow(pat, s, |c|, 0, q);
        }
      }
    }
  }

  // ---- a front is looked for again

  /** The first part is at the start and the others lie behind it. */
  ghost predicate InPlace(pat: Pattern, s: string) {
    |pat.parts| >= 1 && MatchesAt(s, 0, pat.parts[0].text) && Ends(pat, s, |pat.parts[0].text|, 1)
  }

  /** What is found behind a star lies there. */
  lemma {:induction false} FindsOnly(pat: Pattern, s: string, i: nat, k: nat)
    requires PartsOk(pat) && k <= |pat.parts| && (i > 0 || pat.starAtHead) && Finds(pat, s, i, k)
    requires forall m | 0 <= m < |pat.parts| :: Clear(pat.parts[m])
    ensures Ends(pat, s, i, k)
    decreases |pat.parts| - k, |s| - i
  {
    hide Ends, Finds, FirstFrom, MatchesAt, Reaches, Clear;
    if k == |pat.parts| {
      FindsAll(pat, s, i);
      EndsIs(pat, s, i);
    } else {
      var part := pat.parts[k];
      var c := part.text;
      FindsStep(pat, s, i, k);
      FirstFromFinds(s, c, i, part.noBackslash);
      var p := FirstFrom(s, c, i, part.noBackslash);
      Inside(s, p, c);
      if Finds(pat, s, p + |c|, k + 1) {
        FindsOnly(pat, s, p + |c|, k + 1);
        EndsNow(pat, s, i, k, p);
      } else {
        FindsOnly(pat, s, p + |c|, k);
        var q := EndsSomewhere(pat, s, p + |c|, k);
        ReachesPast(s, i, p, q, part);
        EndsNow(pat, s, i, k, q);
      }
    }
  }

  /** Behind a front and one star everything found lies in place. */
  lemma FoundInPlace(pat: Pattern, s: string)
    requires PartsOk(pat) && |pat.parts| >= 2 && !pat.starAtHead && !pat.parts[0].noBackslash && !pat.parts[1].noBackslash
    requires Finds(pat, s, 0, 0) && forall m | 0 <= m < |pat.parts| :: Clear(pat.parts[m])
    ensures InPlace(pat, s)
  {
    hide Ends, Finds, FirstFrom, MatchesAt, Clear;
    var c := pat.parts[0].text;
    FindsStep(pat, s, 0, 0);
    FirstFromFinds(s, c, 0, false);
    if Finds(pat, s, |c|, 1) {
      FindsOnly(pat, s, |c|, 1);
    } else {
      FindsOnly(pat, s, |c|, 0);
      var q := EndsSomewhere(pat, s, |c|, 0);
      var r := EndsSomewhere(pat, s, q + |c|, 1);
      EndsNow(pat, s, |c|, 1, r);
    }
  }

  function Texts(parts: seq<Part>): string {
    if parts == [] then "" else parts[0].text + Texts(parts[1..])
  }

  /** Parts that follow one another are found. */
  lemma {:induction false} JoinedFound(pat: Pattern, s: string, i: nat, k: nat)
    requires PartsOk(pat) && k <= |pat.parts| && 0 < i <= |s| && s[i..] == Texts(pat.parts[k..])
    ensures Finds(pat, s, i, k)
    decreases |pat.parts| - k
  {
    hide Finds;
    if k == |pat.parts| {
      FindsAll(pat, s, i);
    } else {
      var c, rest := pat.parts[k].text, Texts(pat.parts[k + 1..]);
      assert pat.parts[k..][1..] == pat.parts[k + 1..];
      assert s[i..] == c + rest;
      assert MatchesAt(s, i, c) by { LiesAt(s, i, c, rest); }
      assert FirstFrom(s, c, i, pat.parts[k].noBackslash) == i;
      assert s[i + |c|..] == s[i..][|c|..] == rest;
      JoinedFound(pat, s, i + |c|, k + 1);
      FindsStep(pat, s, i, k);
    }
  }

  lemma LiesAt(s: string, i: nat, c: string, rest: string)
    requires i <= |s| && s[i..] == c + rest
    ensures MatchesAt(s, i, c)
  {
    forall m | 0 <= m < |c|
      ensures s[i + m] == c[m]
    {
      assert s[i..][m] == c[m];
    }
  }

  /** Behind a front and two stars: front, backslash, front and the other parts. */
  lemma FoundPast(pat: Pattern, s: string)
    requires PartsOk(pat) && |pat.parts| >= 2 && !pat.starAtHead && !pat.parts[0].noBackslash && pat.parts[1].noBackslash
    requires forall m | 0 <= m < 2 :: pat.parts[m].text[0] != '\\' && pat.parts[m].text[0] != '?'
    requires s == pat.parts[0].text + "\\" + pat.parts[0].text + Texts(pat.parts[1..])
    ensures Finds(pat, s, 0, 0) && !InPlace(pat, s)
  {
    hide Ends, Finds, Texts, MatchesAt, FirstFrom, InPlace;
    var c, rest := pat.parts[0].text, Texts(pat.parts[1..]);
    var n := |c|;
    assert s == c + ("\\" + c + rest) && s[0..] == s && s[n + 1..] == c + rest && s[2 * n + 1..] == rest && s[n] == '\\';
    LiesAt(s, 0, c, "\\" + c + rest);
    LiesAt(s, n + 1, c, rest);
    FirstHere(s, c, 0);
    FirstNext(s, c, n);
    JoinedFound(pat, s, 2 * n + 1, 1);
    FindsStep(pat, s, n, 0);
    FindsStep(pat, s, 0, 0);
    NotInPlace(pat, s);
  }

  lemma FirstHere(s: string, c: string, i: nat)
    requires MatchesAt(s, i, c) && i < |s|
    ensures FirstFrom(s, c, i, false) == i
  {
  }

  lemma FirstNext(s: string, c: string, i: nat)
    requires i + 1 < |s| && s[i] == '\\' && c != "" && c[0] != '\\' && c[0] != '?' && MatchesAt(s, i + 1, c)
    ensures FirstFrom(s, c, i, false) == i + 1
  {
    assert !MatchesAt(s, i, c);
    FirstHere(s, c, i + 1);
    hide MatchesAt;
  }

  lemma NotInPlace(pat: Pattern, s: string)
    requires PartsOk(pat) && |pat.parts| >= 2 && pat.parts[1].noBackslash && pat.parts[1].text[0] != '\\' && pat.parts[1].text[0] != '?'
    requires |pat.parts[0].text| < |s| && s[|pat.parts[0].text|] == '\\'
    ensures !InPlace(pat, s)
  {
    hide Ends;
    if InPlace(pat, s) {
      var q := EndsSomewhere(pat, s, |pat.parts[0].text|, 1);
    }
  }

  /** For a front and any other parts: everything found lies in place if and only if the part behind the front is not behind two
      stars; and what lies in place is found where no part overlaps itself. */
  lemma TwoStarsExact(pat: Pattern)
    requires PartsOk(pat) && |pat.parts| >= 2 && !pat.starAtHead && !pat.parts[0].noBackslash
    requires forall m | 0 <= m < |pat.parts| :: '\\' !in pat.parts[m].text && '?' !in pat.parts[m].text
    ensures (forall s :: Finds(pat, s, 0, 0) ==> InPlace(pat, s)) <==> !pat.parts[1].noBackslash
    ensures forall s | AllApart(pat, s) && InPlace(pat, s) :: Finds(pat, s, 0, 0)
  {
    hide Ends, Finds, MatchesAt, PartApart, Texts;
    if pat.parts[1].noBackslash {
      assert forall m | 0 <= m < 2 :: pat.parts[m].text[0] in pat.parts[m].text;
      FoundPast(pat, pat.parts[0].text + "\\" + pat.parts[0].text + Texts(pat.parts[1..]));
    } else {
      forall s | Finds(pat, s, 0, 0)
        ensures InPlace(pat, s)
      {
        FoundInPlace(pat, s);
      }
    }
    forall s | AllApart(pat, s) && InPlace(pat, s)
      ensures Finds(pat, s, 0, 0)
    {
      FrontTightly(pat, s);
    }
  }

  /** `a**b` and a string in which a backslash follows the first `a`: it is found behind the second. */
  lemma PastBackslash(pat: Pattern)
    requires Compiled(pat, "a**b")
    ensures pat.parts == [Part("a", false), Part("b", true)] && PartsOk(pat) && !pat.starMissing
    ensures Finds(pat, "a\\ab", 0, 0) && !InPlace(pat, "a\\ab")
  {
    TwoParts();
    assert "a**b"[0] == 'a' && "a**b"[3] == 'b';
    hide Split, Finds, InPlace;
    assert pat.parts[1..] == [Part("b", true)] && Texts([]) == "";
    assert Texts([Part("b", true)]) == "b" + Texts([Part("b", true)][1..]);
    FoundPast(pat, "a\\ab");
  }

  lemma TwoParts()
    ensures Split("a**b", 0) == [Part("a", false), Part("b", true)]
  {
    var w := "a**b";
    assert w[1..] == "**b" && w[1..][1..] == "*b" && w[1..][1..][1..] == "b" && "b"[1..] == "";
    assert LiteralLength("b") == 1 && LiteralLength(w) == 1;
    assert w[..1] == "a" && "b"[..1] == "b";
    assert Split("", 0) == [];
    assert Split("b", 2) == [Part("b", true)] + [];
    assert Split("*b", 1) == Split("b", 2);
    assert Split("**b", 0) == Split("*b", 1);
  }
}
