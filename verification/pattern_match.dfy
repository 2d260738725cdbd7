/** Matching in pattern.c against the meaning of the pattern. */
module PatternMatch {
  import opened Glob
  import opened Pattern

  /** The parts lie in `s` one behind the other from `i` on, and end at `e`. */
  ghost predicate EndsAt(parts: seq<Part>, s: string, i: nat, e: nat) {
    if parts == [] then e == i
    else exists p: nat :: i <= p && MatchesAt(s, p, parts[0].text) && EndsAt(parts[1..], s, p + |parts[0].text|, e)
  }

  lemma {:induction false} EndsBounds(parts: seq<Part>, s: string, i: nat, e: nat)
    requires EndsAt(parts, s, i, e)
    ensures i <= e && (i <= |s| ==> e <= |s|)
  {
    if parts != [] {
      var p: nat :| i <= p && MatchesAt(s, p, parts[0].text) && EndsAt(parts[1..], s, p + |parts[0].text|, e);
      EndsBounds(parts[1..], s, p + |parts[0].text|, e);
    }
  }

  /** From further left the same end can be reached. */
  lemma EndsEarlier(parts: seq<Part>, s: string, i: nat, j: nat, e: nat)
    requires EndsAt(parts, s, i, e) && j <= i
    ensures parts != [] ==> EndsAt(parts, s, j, e)
    ensures parts == [] ==> EndsAt(parts, s, j, j) && j <= e
  {
    if parts != [] {
      var p: nat :| i <= p && MatchesAt(s, p, parts[0].text) && EndsAt(parts[1..], s, p + |parts[0].text|, e);
      assert j <= p;
    }
  }

  predicate PartsOk(pat: Pattern) {
    && (forall k | 0 <= k < |pat.parts| :: pat.parts[k].text != "")
    && (|pat.parts| <= 1 ==> pat.starAtHead || pat.starAtTail)
  }

  /** No part is behind just two stars. */
  predicate Plain(pat: Pattern) {
    forall k | 0 <= k < |pat.parts| :: !pat.parts[k].noBackslash
  }

  /** The parts from `k` on lie in `s` from `i` on; the first one at the very start, unless a star
      is in front of it. */
  ghost predicate Placed(pat: Pattern, s: string, i: nat, k: nat, e: nat)
    requires k <= |pat.parts|
  {
    if k < |pat.parts| && i == 0 && !pat.starAtHead
    then MatchesAt(s, 0, pat.parts[k].text) && EndsAt(pat.parts[k + 1..], s, |pat.parts[k].text|, e)
    else EndsAt(pat.parts[k..], s, i, e)
  }

  /** Two occurrences of the last part never overlap in `s`. */
  predicate LastApart(pat: Pattern, s: string) {
    pat.parts != [] ==>
      var c := pat.parts[|pat.parts| - 1].text;
      forall p, q | 0 <= p < q <= |s| && MatchesAt(s, p, c) && MatchesAt(s, q, c) :: p + |c| <= q
  }

  /** What is true of the search of part `k` from `i` on once it has tried `p` in vain: `left` is
      where it goes on. */
  ghost predicate InVain(pat: Pattern, s: string, i: nat, k: nat, left: nat)
    requires k < |pat.parts|
  {
    && (i == 0 && !pat.starAtHead ==> MatchesAt(s, 0, pat.parts[k].text) && k + 1 < |pat.parts| && |pat.parts[k].text| <= left)
    && (pat.starAtTail && Plain(pat) ==> forall e: nat :: !Placed(pat, s, i, k, e))
    && (!pat.starAtTail && Plain(pat) && LastApart(pat, s) && Placed(pat, s, i, k, |s|) ==>
          k + 1 == |pat.parts| && left <= |s| - |pat.parts[k].text| && MatchesAt(s, |s| - |pat.parts[k].text|, pat.parts[k].text))
  }

  /** What a result means. */
  ghost predicate Sound(pat: Pattern, s: string, i: nat, k: nat, found: nat)
    requires k <= |pat.parts|
  {
    found != 0 ==> Placed(pat, s, i, k, found - 1) && (pat.starAtTail || found - 1 == |s|)
  }

  /** ... with a star at the end: the least end. */
  ghost predicate Least(pat: Pattern, s: string, i: nat, k: nat, found: nat)
    requires k <= |pat.parts|
  {
    pat.starAtTail && (Plain(pat) || k == |pat.parts|) ==> forall e: nat :: Placed(pat, s, i, k, e) ==> 0 < found <= e + 1
  }

  /** ... and without, where the occurrences of the last part are apart. */
  ghost predicate Complete(pat: Pattern, s: string, i: nat, k: nat, found: nat)
    requires k <= |pat.parts|
  {
    !pat.starAtTail && Plain(pat) && LastApart(pat, s) && Placed(pat, s, i, k, |s|) ==> found != 0
  }

  /** `p` is the first place from `i` on where `c` lies. */
  predicate First(s: string, i: nat, c: string, p: nat) {
    i <= p && MatchesAt(s, p, c) && forall q | i <= q < p :: !MatchesAt(s, q, c)
  }

  // ---- what the scans find

  /** A search from `i` on may get to `p`: with `tight` no backslash is in between. */
  predicate Reaches(s: string, i: nat, p: nat, tight: bool) {
    tight ==> NoBackslash(s, i, p)
  }

  /** The first place from `i` on where `c` lies and that the search gets to; -1 for none. */
  function FirstFrom(s: string, c: string, i: nat, tight: bool): (p: int)
    ensures p >= -1 && (p >= 0 ==> i <= p && MatchesAt(s, p, c))
    decreases |s| - i
  {
    if i >= |s| then -1
    else if MatchesAt(s, i, c) then i
    else if tight && s[i] == '\\' then -1
    else FirstFrom(s, c, i + 1, tight)
  }

  lemma {:induction false} FirstFromIs(s: string, c: string, i: nat, p: int, tight: bool)
    requires c != "" && p >= -1
    requires p >= 0 ==> i <= p && MatchesAt(s, p, c) && Reaches(s, i, p, tight) && forall q | i <= q < p && Reaches(s, i, q, tight) :: !MatchesAt(s, q, c)
    requires p == -1 ==> forall q | i <= q <= |s| && Reaches(s, i, q, tight) :: !MatchesAt(s, q, c)
    ensures FirstFrom(s, c, i, tight) == p
    decreases |s| - i
  {
    if i < |s| {
      assert Reaches(s, i, i, tight);
      if i != p && !(tight && s[i] == '\\') {
        FirstFromIs(s, c, i + 1, p, tight);
      }
    }
  }

  /** Going from one occurrence of `c` to the next that begins behind it, the end of `s` is met. */
  predicate Visits(s: string, c: string, i: nat)
    requires c != ""
    decreases |s| - i
  {
    var p := FirstFrom(s, c, i, false);
    p >= i && i < |s| && (p + |c| == |s| || Visits(s, c, p + |c|))
  }

  /** The parts from `k` on are found from `i` on.  Each is looked for from one occurrence to the next
      that begins behind it, and the following parts behind each of these; the first part must be
      at the very start the first time, unless a star is in front of it. */
  predicate Finds(pat: Pattern, s: string, i: nat, k: nat)
    requires PartsOk(pat) && k <= |pat.parts|
    decreases |pat.parts| - k, |s| - i
  {
    if k == |pat.parts| then pat.starAtTail || i == |s|
    else
      var c := pat.parts[k].text;
      var p := FirstFrom(s, c, i, pat.parts[k].noBackslash);
      p >= 0 && (i == 0 && !pat.starAtHead ==> p == 0) && (Finds(pat, s, p + |c|, k + 1) || Finds(pat, s, p + |c|, k))
  }

  lemma FindsStep(pat: Pattern, s: string, i: nat, k: nat)
    requires PartsOk(pat) && k < |pat.parts|
    ensures var c := pat.parts[k].text;
      var p := FirstFrom(s, c, i, pat.parts[k].noBackslash);
      Finds(pat, s, i, k) <==> p >= 0 && (i == 0 && !pat.starAtHead ==> p == 0) && (Finds(pat, s, p + |c|, k + 1) || Finds(pat, s, p + |c|, k))
  {
  }

  /** What a result says of that. */
  predicate TellsFound(pat: Pattern, s: string, i: nat, k: nat, found: nat)
    requires PartsOk(pat) && k <= |pat.parts|
  {
    found != 0 <==> Finds(pat, s, i, k)
  }

  /** The scan from `index` on is the one from `i` on. */
  predicate OnTheWay(pat: Pattern, s: string, i: nat, k: nat, index: nat)
    requires PartsOk(pat) && k < |pat.parts|
  {
    Finds(pat, s, i, k) <==> Finds(pat, s, index, k)
  }

  lemma ScanStarts(pat: Pattern, s: string, i: nat, k: nat)
    requires PartsOk(pat) && k < |pat.parts|
    ensures OnTheWay(pat, s, i, k, i)
  {
  }

  /** The search from `index` on ends at `ptr`. */
  predicate FirstReached(s: string, index: nat, part: Part, ptr: nat) {
    && index <= ptr && MatchesAt(s, ptr, part.text) && Reaches(s, index, ptr, part.noBackslash)
    && forall q | index <= q < ptr && Reaches(s, index, q, part.noBackslash) :: !MatchesAt(s, q, part.text)
  }

  lemma ScanEnds(pat: Pattern, s: string, i: nat, k: nat, index: nat)
    requires PartsOk(pat) && k < |pat.parts| && OnTheWay(pat, s, i, k, index)
    requires forall q | index <= q <= |s| && Reaches(s, index, q, pat.parts[k].noBackslash) :: !MatchesAt(s, q, pat.parts[k].text)
    ensures TellsFound(pat, s, i, k, 0)
  {
    FirstFromIs(s, pat.parts[k].text, index, -1, pat.parts[k].noBackslash);
  }

  lemma ScanBlocked(pat: Pattern, s: string, i: nat, k: nat, index: nat, ptr: nat)
    requires PartsOk(pat) && k < |pat.parts| && OnTheWay(pat, s, i, k, index) && index == 0 < ptr && !pat.starAtHead
    requires FirstReached(s, index, pat.parts[k], ptr)
    ensures TellsFound(pat, s, i, k, 0)
  {
    FirstFromIs(s, pat.parts[k].text, index, ptr, pat.parts[k].noBackslash);
  }

  /** One occurrence: the other parts are found behind it, or the scan goes on. */
  lemma ScanStep(pat: Pattern, s: string, i: nat, k: nat, index: nat, ptr: nat, found: nat)
    requires PartsOk(pat) && k < |pat.parts| && OnTheWay(pat, s, i, k, index)
    requires index == 0 && !pat.starAtHead ==> ptr == 0
    requires FirstReached(s, index, pat.parts[k], ptr)
    requires TellsFound(pat, s, ptr + |pat.parts[k].text|, k + 1, found)
    ensures if found != 0 then TellsFound(pat, s, i, k, found) else OnTheWay(pat, s, i, k, ptr + |pat.parts[k].text|)
  {
    FirstFromIs(s, pat.parts[k].text, index, ptr, pat.parts[k].noBackslash);
  }

  /** No part is at the start unless it is the first. */
  predicate FirstOnly(i: nat, k: nat) {
    k > 0 ==> i > 0
  }

  lemma PlacedTail(pat: Pattern, s: string, i: nat, k: nat, e: nat)
    requires k <= |pat.parts| && i > 0
    ensures Placed(pat, s, i, k, e) <==> EndsAt(pat.parts[k..], s, i, e)
  {
  }

  lemma EndsFirst(pat: Pattern, s: string, i: nat, k: nat, e: nat) returns (p: nat)
    requires k < |pat.parts| && EndsAt(pat.parts[k..], s, i, e)
    ensures i <= p && MatchesAt(s, p, pat.parts[k].text) && EndsAt(pat.parts[k + 1..], s, p + |pat.parts[k].text|, e)
  {
    var q := pat.parts[k..];
    assert q[1..] == pat.parts[k + 1..];
    p :| i <= p && MatchesAt(s, p, q[0].text) && EndsAt(q[1..], s, p + |q[0].text|, e);
  }

  lemma EndsWith(pat: Pattern, s: string, i: nat, k: nat, e: nat, p: nat)
    requires k < |pat.parts| && i <= p && MatchesAt(s, p, pat.parts[k].text) && EndsAt(pat.parts[k + 1..], s, p + |pat.parts[k].text|, e)
    ensures EndsAt(pat.parts[k..], s, i, e)
  {
    var q := pat.parts[k..];
    assert q[1..] == pat.parts[k + 1..];
  }

  lemma EndsNone(s: string, i: nat, e: nat)
    ensures EndsAt([], s, i, e) <==> e == i
  {
  }

  /** Where the parts can be placed at all, they can be placed with this one at its first place. */
  lemma GreedyWins(pat: Pattern, s: string, i: nat, k: nat, e: nat, ptr: nat)
    requires PartsOk(pat) && k < |pat.parts| && Placed(pat, s, i, k, e) && First(s, i, pat.parts[k].text, ptr)
    requires i == 0 && !pat.starAtHead ==> ptr == 0
    ensures var c := pat.parts[k].text;
      if k + 1 < |pat.parts| then Placed(pat, s, ptr + |c|, k + 1, e)
      else Placed(pat, s, ptr + |c|, k + 1, ptr + |c|) && |c| <= e && ptr <= e - |c| && MatchesAt(s, e - |c|, c)
  {
    hide EndsAt;
    var c := pat.parts[k].text;
    var p := 0;
    if !(i == 0 && !pat.starAtHead) {
      p := EndsFirst(pat, s, i, k, e);
    }
    assert ptr <= p;
    EndsEarlier(pat.parts[k + 1..], s, p + |c|, ptr + |c|, e);
    EndsNone(s, p + |c|, e);
    EndsNone(s, ptr + |c|, ptr + |c|);
    assert c != "";
  }

  lemma SomePlace(pat: Pattern, s: string, i: nat, k: nat, e: nat) returns (p: nat)
    requires k < |pat.parts| && Placed(pat, s, i, k, e)
    ensures i <= p && MatchesAt(s, p, pat.parts[k].text)
  {
    p := 0;
    if !(i == 0 && !pat.starAtHead) {
      p := EndsFirst(pat, s, i, k, e);
    }
  }

  lemma NotFound(pat: Pattern, s: string, i: nat, k: nat, index: nat)
    requires PartsOk(pat) && k < |pat.parts| && i <= index && (index == i || InVain(pat, s, i, k, index))
    requires !pat.parts[k].noBackslash ==> forall q | index <= q <= |s| :: !MatchesAt(s, q, pat.parts[k].text)
    ensures Sound(pat, s, i, k, 0) && Least(pat, s, i, k, 0) && Complete(pat, s, i, k, 0)
  {
    hide EndsAt, LastApart;
    var c := pat.parts[k].text;
    if Plain(pat) && index == i {
      forall e: nat
        ensures !Placed(pat, s, i, k, e)
      {
        if Placed(pat, s, i, k, e) {
          var p := SomePlace(pat, s, i, k, e);
        }
      }
    }
  }

  lemma NotAtStart(pat: Pattern, s: string, i: nat, k: nat, index: nat, ptr: nat)
    requires PartsOk(pat) && k < |pat.parts| && i <= index == 0 && (index == i || InVain(pat, s, i, k, index))
    requires ptr > 0 && !pat.starAtHead && (!pat.parts[k].noBackslash ==> First(s, index, pat.parts[k].text, ptr))
    ensures Sound(pat, s, i, k, 0) && Least(pat, s, i, k, 0) && Complete(pat, s, i, k, 0)
  {
    hide EndsAt, LastApart, Visits;
  }

  lemma Succeeds(pat: Pattern, s: string, i: nat, k: nat, index: nat, ptr: nat, found: nat)
    requires PartsOk(pat) && k < |pat.parts| && i <= index <= ptr && (index == i || InVain(pat, s, i, k, index))
    requires MatchesAt(s, ptr, pat.parts[k].text) && (index == 0 && !pat.starAtHead ==> ptr == 0)
    requires !pat.parts[k].noBackslash ==> First(s, index, pat.parts[k].text, ptr)
    requires found != 0 && Sound(pat, s, ptr + |pat.parts[k].text|, k + 1, found) && Least(pat, s, ptr + |pat.parts[k].text|, k + 1, found)
    ensures Sound(pat, s, i, k, found) && Least(pat, s, i, k, found) && Complete(pat, s, i, k, found)
  {
    hide EndsAt, LastApart;
    var c := pat.parts[k].text;
    var e := found - 1;
    PlacedTail(pat, s, ptr + |c|, k + 1, e);
    EndsWith(pat, s, i, k, e, ptr);
    if i == 0 && !pat.starAtHead && index != 0 {
      EndsEarlier(pat.parts[k + 1..], s, ptr + |c|, |c|, e);
    }
    if index == i {
      LeastFirst(pat, s, i, k, ptr, found);
    } else {
      hide Placed;
    }
  }

  lemma LeastFirst(pat: Pattern, s: string, i: nat, k: nat, ptr: nat, found: nat)
    requires PartsOk(pat) && k < |pat.parts| && (i == 0 && !pat.starAtHead ==> ptr == 0)
    requires !pat.parts[k].noBackslash ==> First(s, i, pat.parts[k].text, ptr)
    requires Least(pat, s, ptr + |pat.parts[k].text|, k + 1, found)
    ensures Least(pat, s, i, k, found)
  {
    hide EndsAt, Placed;
    if pat.starAtTail && Plain(pat) {
      forall e: nat | Placed(pat, s, i, k, e)
        ensures 0 < found <= e + 1
      {
        GreedyWins(pat, s, i, k, e, ptr);
      }
    }
  }

  lemma Fails(pat: Pattern, s: string, i: nat, k: nat, index: nat, ptr: nat)
    requires PartsOk(pat) && k < |pat.parts| && FirstOnly(i, k) && i <= index <= ptr && (index == i || InVain(pat, s, i, k, index))
    requires MatchesAt(s, ptr, pat.parts[k].text) && (index == 0 && !pat.starAtHead ==> ptr == 0)
    requires !pat.parts[k].noBackslash ==> First(s, index, pat.parts[k].text, ptr)
    requires var j := ptr + |pat.parts[k].text|; Least(pat, s, j, k + 1, 0) && Complete(pat, s, j, k + 1, 0)
    ensures InVain(pat, s, i, k, ptr + |pat.parts[k].text|)
  {
    FailsHead(pat, s, i, k, index, ptr);
    FailsTail(pat, s, i, k, index, ptr);
    if !pat.starAtTail && Plain(pat) && LastApart(pat, s) && Placed(pat, s, i, k, |s|) {
      FailsEnd(pat, s, i, k, index, ptr);
    }
    hide Placed, EndsAt, LastApart, Least, Complete, Plain;
  }

  lemma FailsHead(pat: Pattern, s: string, i: nat, k: nat, index: nat, ptr: nat)
    requires PartsOk(pat) && k < |pat.parts| && FirstOnly(i, k) && i <= index <= ptr && (index == i || InVain(pat, s, i, k, index))
    requires MatchesAt(s, ptr, pat.parts[k].text) && (index == 0 && !pat.starAtHead ==> ptr == 0)
    requires Least(pat, s, ptr + |pat.parts[k].text|, k + 1, 0)
    ensures i == 0 && !pat.starAtHead ==> MatchesAt(s, 0, pat.parts[k].text) && k + 1 < |pat.parts|
  {
    hide EndsAt, LastApart, Complete;
    var j := ptr + |pat.parts[k].text|;
    EndsNone(s, j, j);
    if k + 1 == |pat.parts| {
      assert pat.parts[k + 1..] == [];
      assert pat.starAtTail ==> !Placed(pat, s, j, k + 1, j);
    }
  }

  lemma FailsTail(pat: Pattern, s: string, i: nat, k: nat, index: nat, ptr: nat)
    requires PartsOk(pat) && k < |pat.parts| && (index == i || InVain(pat, s, i, k, index))
    requires index == 0 && !pat.starAtHead ==> ptr == 0
    requires !pat.parts[k].noBackslash ==> First(s, index, pat.parts[k].text, ptr)
    requires Least(pat, s, ptr + |pat.parts[k].text|, k + 1, 0)
    ensures pat.starAtTail && Plain(pat) ==> forall e: nat :: !Placed(pat, s, i, k, e)
  {
    if index == i {
      LeastFirst(pat, s, i, k, ptr, 0);
    }
    hide EndsAt, Placed, LastApart;
  }

  lemma FailsEnd(pat: Pattern, s: string, i: nat, k: nat, index: nat, ptr: nat)
    requires PartsOk(pat) && k < |pat.parts| && FirstOnly(i, k) && i <= index <= ptr && (index == i || InVain(pat, s, i, k, index))
    requires MatchesAt(s, ptr, pat.parts[k].text) && (index == 0 && !pat.starAtHead ==> ptr == 0)
    requires !pat.parts[k].noBackslash ==> First(s, index, pat.parts[k].text, ptr)
    requires Complete(pat, s, ptr + |pat.parts[k].text|, k + 1, 0)
    requires !pat.starAtTail && Plain(pat) && LastApart(pat, s) && Placed(pat, s, i, k, |s|)
    ensures k + 1 == |pat.parts|
    ensures var c := pat.parts[k].text; ptr + |c| <= |s| - |c| && MatchesAt(s, |s| - |c|, c)
  {
    var c := pat.parts[k].text;
    if index == i {
      GreedyWins(pat, s, i, k, |s|, ptr);
    }
    hide EndsAt;
    assert k + 1 == |pat.parts|;
    EndsNone(s, ptr + |c|, |s|);
    PlacedTail(pat, s, ptr + |c|, k + 1, |s|);
  }

  lemma AllPlaced(pat: Pattern, s: string, i: nat, found: nat)
    requires PartsOk(pat) && found == if i != |s| && !pat.starAtTail then 0 else i + 1
    ensures TellsFound(pat, s, i, |pat.parts|, found)
    ensures Sound(pat, s, i, |pat.parts|, found) && Least(pat, s, i, |pat.parts|, found) && Complete(pat, s, i, |pat.parts|, found)
  {
    forall e: nat
      ensures Placed(pat, s, i, |pat.parts|, e) <==> e == i
    {
      assert pat.parts[|pat.parts|..] == [];
    }
    hide Placed, EndsAt;
  }

  /** `Pattern_Match2`, for parts without `__hex`. */
  method Match2(pat: Pattern, s: string, i: nat, k: nat) returns (found: nat)
    requires PartsOk(pat) && i <= |s| && k <= |pat.parts| && (k > 0 ==> i > 0)
    ensures Sound(pat, s, i, k, found) && Least(pat, s, i, k, found) && Complete(pat, s, i, k, found)
    ensures TellsFound(pat, s, i, k, found)
    decreases |pat.parts| - k
  {
    hide EndsAt, Placed, InVain, Sound, Least, Complete, LastApart, Plain, TellsFound, OnTheWay;
    if k < |pat.parts| {
      var c := pat.parts[k].text;
      var index := i;
      ScanStarts(pat, s, i, k);
      while true
        invariant i <= index <= |s|
        invariant index == i || InVain(pat, s, i, k, index)
        invariant OnTheWay(pat, s, i, k, index)
        decreases |s| - index
      {
        var ptr := Search(s, index, c, pat.parts[k].noBackslash);
        if ptr == -1 {
          found := 0;
          NotFound(pat, s, i, k, index);
          ScanEnds(pat, s, i, k, index);
          break;
        }
        if index == 0 && ptr > 0 && !pat.starAtHead {
          found := 0;
          NotAtStart(pat, s, i, k, index, ptr);
          ScanBlocked(pat, s, i, k, index, ptr);
          break;
        }
        found := Match2(pat, s, ptr + |c|, k + 1);
        if found != 0 {
          Succeeds(pat, s, i, k, index, ptr, found);
          ScanStep(pat, s, i, k, index, ptr, found);
          break;
        }
        ScanStep(pat, s, i, k, index, ptr, found);
        Fails(pat, s, i, k, index, ptr);
        index := ptr + |c|;
      }
    } else {
      if i != |s| && !pat.starAtTail {
        found := 0;
      } else {
        found := i + 1;
      }
      AllPlaced(pat, s, i, found);
    }
  }

  // ---- the parts and the pattern they were cut from

  predicate Tail(w: string) {
    w != "" && w[|w| - 1] == '*'
  }

  /** The parts can be placed from `i` on, up to the end of `s` unless a star is behind them. */
  ghost predicate Fits(parts: seq<Part>, tail: bool, s: string, i: nat) {
    exists e: nat :: EndsAt(parts, s, i, e) && (tail || e == |s|)
  }

  lemma FitsEarlier(parts: seq<Part>, tail: bool, s: string, i: nat, j: nat)
    requires Fits(parts, tail, s, i) && j <= i && (parts != [] || tail)
    ensures Fits(parts, tail, s, j)
  {
    hide EndsAt;
    var e: nat :| EndsAt(parts, s, i, e) && (tail || e == |s|);
    EndsEarlier(parts, s, i, j, e);
  }

  lemma FitsCons(part: Part, rest: seq<Part>, tail: bool, s: string, i: nat)
    ensures Fits([part] + rest, tail, s, i) <==> exists p: nat :: i <= p && MatchesAt(s, p, part.text) && Fits(rest, tail, s, p + |part.text|)
  {
    var parts := [part] + rest;
    assert parts[1..] == rest;
    if Fits(parts, tail, s, i) {
      var e: nat :| EndsAt(parts, s, i, e) && (tail || e == |s|);
      var p: nat :| i <= p && MatchesAt(s, p, parts[0].text) && EndsAt(parts[1..], s, p + |parts[0].text|, e);
    }
    if p: nat :| i <= p && MatchesAt(s, p, part.text) && Fits(rest, tail, s, p + |part.text|) {
      var e: nat :| EndsAt(rest, s, p + |part.text|, e) && (tail || e == |s|);
      assert EndsAt(parts, s, i, e);
    }
  }

  lemma FitsNone(tail: bool, s: string, i: nat)
    ensures Fits([], tail, s, i) <==> tail || i == |s|
  {
    assert EndsAt([], s, i, i);
  }

  /** Where nothing but stars is left there is one at the end. */
  lemma {:induction false} NoParts(w: string, stars: nat)
    requires w != "" && w[0] == '*' && Split(w, stars) == []
    ensures Tail(w)
  {
    var v := w[1..];
    if v != "" && v[0] == '*' {
      NoParts(v, stars + 1);
    }
  }

  /** A pattern that starts with a star, or is used up, against its parts. */
  lemma {:induction false} StarFits(w: string, s: string, j: nat, stars: nat)
    requires j <= |s| && (w != "" ==> w[0] == '*')
    ensures Matches(w, s[j..]) <==> Fits(Split(w, stars), Tail(w), s, j)
    decreases |w|, 1
  {
    hide Fits, EndsAt, Split, Matches;
    if w == "" {
      NoMore();
      FitsNone(false, s, j);
      EmptyMatch(s[j..]);
    } else {
      var v := w[1..];
      StarFirst(w, s, j);
      SplitStar(w, stars);
      if v == "" {
        NoMore();
        FitsNone(true, s, j);
        EmptyMatch(s[|s|..]);
      } else if v[0] == '*' {
        forall k: nat | j <= k <= |s|
          ensures Matches(v, s[k..]) ==> Fits(Split(v, stars + 1), Tail(v), s, j)
        {
          StarFits(v, s, k, stars + 1);
          if Matches(v, s[k..]) {
            if Split(v, stars + 1) == [] {
              NoParts(v, stars + 1);
            }
            FitsEarlier(Split(v, stars + 1), Tail(v), s, k, j);
          }
        }
        StarFits(v, s, j, stars + 1);
      } else {
        StarLiteral(w, s, j, stars);
      }
    }
  }

  lemma {:induction false} StarLiteral(w: string, s: string, j: nat, stars: nat)
    requires j <= |s| && |w| >= 2 && w[0] == '*' && w[1] != '*'
    ensures Fits(Split(w[1..], stars + 1), Tail(w), s, j) <==> exists k :: j <= k <= |s| && Matches(w[1..], s[k..])
    decreases |w|, 0
  {
    hide Fits, EndsAt, Split, Matches;
    var v := w[1..];
    var n := LiteralLength(v);
    var lit, rest := v[..n], v[n..];
    SplitPart(v, 0, stars + 1);
    assert v[0..] == v && v[0..0 + n] == lit && v[0 + n..] == rest && v == lit + rest;
    FitsCons(Part(lit, stars + 1 == 2), Split(rest, 0), Tail(w), s, j);
    assert Tail(w) == Tail(rest);
    forall k: nat | j <= k <= |s|
      ensures Matches(v, s[k..]) <==> MatchesAt(s, k, lit) && Fits(Split(rest, 0), Tail(w), s, k + |lit|)
    {
      LiteralAt(lit, rest, s, k);
      if k + n <= |s| {
        StarFits(rest, s, k + n, 0);
      }
    }
  }

  lemma EmptyMatch(s: string)
    ensures Matches("", s) <==> s == ""
  {
  }

  lemma SplitStar(w: string, stars: nat)
    requires w != "" && w[0] == '*'
    ensures Split(w, stars) == Split(w[1..], stars + 1)
  {
  }

  lemma LiteralAt(lit: string, rest: string, s: string, k: nat)
    requires StarFree(lit) && k <= |s|
    ensures Matches(lit + rest, s[k..]) <==> MatchesAt(s, k, lit) && Matches(rest, s[k + |lit|..])
  {
    hide Matches;
    LiteralFirst(lit, rest, s[k..]);
    if MatchesAt(s[k..], 0, lit) {
      forall i | 0 <= i < |lit|
        ensures lit[i] == '?' || s[k + i] == lit[i]
      {
        assert lit[i] == '?' || s[k..][0 + i] == lit[i];
      }
    }
    if MatchesAt(s, k, lit) {
      forall i | 0 <= i < |lit|
        ensures lit[i] == '?' || s[k..][i] == lit[i]
      {
        assert lit[i] == '?' || s[k + i] == lit[i];
      }
    }
    if k + |lit| <= |s| {
      assert s[k..][|lit|..] == s[k + |lit|..];
    }
  }

  /** The meaning of the whole pattern, told by its parts. */
  lemma PatternFits(pat: Pattern, w: string, s: string)
    requires w != "" && Compiled(pat, w)
    ensures Matches(w, s) <==> exists e: nat :: Placed(pat, s, 0, 0, e) && (pat.starAtTail || e == |s|)
  {
    hide EndsAt, Split, Matches;
    assert s[0..] == s && pat.parts[0..] == pat.parts;
    if w[0] == '*' {
      StarFits(w, s, 0, 0);
      HeadPlaced(pat, s);
    } else {
      var n := LiteralLength(w);
      var lit, rest := w[..n], w[n..];
      SplitPart(w, 0, 0);
      assert w[0..] == w && w[0..0 + n] == lit && w[0 + n..] == rest && w == lit + rest;
      LiteralFirst(lit, rest, s);
      assert pat.parts[0].text == lit && pat.parts[1..] == Split(rest, 0);
      assert Tail(w) == Tail(rest);
      if n <= |s| {
        StarFits(rest, s, n, 0);
      }
      FirstPlaced(pat, s);
    }
  }

  lemma HeadPlaced(pat: Pattern, s: string)
    requires pat.starAtHead
    ensures (exists e: nat :: Placed(pat, s, 0, 0, e) && (pat.starAtTail || e == |s|)) <==> Fits(pat.parts, pat.starAtTail, s, 0)
  {
    hide EndsAt;
    assert pat.parts[0..] == pat.parts;
    if Fits(pat.parts, pat.starAtTail, s, 0) {
      var e: nat :| EndsAt(pat.parts, s, 0, e) && (pat.starAtTail || e == |s|);
      assert Placed(pat, s, 0, 0, e);
    }
  }

  lemma FirstPlaced(pat: Pattern, s: string)
    requires pat.parts != [] && !pat.starAtHead
    ensures (exists e: nat :: Placed(pat, s, 0, 0, e) && (pat.starAtTail || e == |s|)) <==>
      (MatchesAt(s, 0, pat.parts[0].text) && Fits(pat.parts[1..], pat.starAtTail, s, |pat.parts[0].text|))
  {
    hide EndsAt;
    if MatchesAt(s, 0, pat.parts[0].text) && Fits(pat.parts[1..], pat.starAtTail, s, |pat.parts[0].text|) {
      var e: nat :| EndsAt(pat.parts[1..], s, |pat.parts[0].text|, e) && (pat.starAtTail || e == |s|);
      assert Placed(pat, s, 0, 0, e);
    }
  }

  lemma CompiledOk(pat: Pattern, w: string)
    requires w != "" && Compiled(pat, w)
    ensures forall k | 0 <= k < |pat.parts| :: pat.parts[k].text != ""
    ensures !pat.starMissing ==> PartsOk(pat)
  {
    TextsNotEmpty(w, 0);
    hide Split;
  }

  lemma {:induction false} TextsNotEmpty(w: string, stars: nat)
    ensures forall k | 0 <= k < |Split(w, stars)| :: Split(w, stars)[k].text != ""
    decreases |w|
  {
    if w != "" {
      if w[0] == '*' {
        TextsNotEmpty(w[1..], stars + 1);
      } else {
        var n := LiteralLength(w);
        assert n >= 1;
        TextsNotEmpty(w[n..], 0);
      }
    }
  }

  // ---- Pattern_MatchX

  /** For a pattern of one part without stars. */
  method MatchLiteral(pat: Pattern, s: string) returns (r: nat)
    requires |pat.parts| <= 1 && forall k | 0 <= k < |pat.parts| :: pat.parts[k].text != ""
    requires !pat.haveAQmark ==> forall k | 0 <= k < |pat.parts| :: '?' !in pat.parts[k].text
    ensures r == if |pat.parts| == 1 && |s| == |pat.parts[0].text| && MatchesAt(s, 0, pat.parts[0].text) then |s| else 0
  {
    if |pat.parts| == 0 {
      return 0;
    }
    var c := pat.parts[0].text;
    if |s| != |c| {
      return 0;
    }
    if pat.haveAQmark {
      var x := Search(s, 0, c, false);
      if x != 0 {
        return 0;
      }
    } else {
      if s != c {
        assert exists i :: 0 <= i < |c| && s[i] != c[i];
        return 0;
      }
    }
    return |s|;
  }

  /** A result other than zero means a match, for every pattern.  For a pattern without a part behind
      just two stars it is zero only where there is none, if the pattern has no star or ends in one,
      or if no two occurrences of its last part overlap in the string.  With stars it is zero just where
      the scans do not find the parts, and with a star at the end one more than the length of the
      shortest prefix that matches. */
  method MatchX(pat: Pattern, s: string, ghost w: string) returns (r: nat)
    requires w != "" && Compiled(pat, w)
    ensures r != 0 ==> Matches(w, s)
    ensures Plain(pat) && (pat.starMissing || pat.starAtTail || LastApart(pat, s)) ==> (r != 0 <==> Matches(w, s))
    ensures !pat.starMissing ==> PartsOk(pat) && (r != 0 <==> Finds(pat, s, 0, 0))
    ensures r != 0 && !pat.starAtTail ==> r == if pat.starMissing then |s| else |s| + 1
    ensures Plain(pat) && pat.starAtTail && r != 0 ==> r - 1 <= |s| && Matches(w, s[..r - 1]) && forall n | 0 <= n < r - 1 :: !Matches(w, s[..n])
  {
    hide Placed, EndsAt, LastApart, Plain, Split, Matches, Finds;
    CompiledOk(pat, w);
    if pat.starMissing {
      OnlyPart(pat, w);
      r := MatchLiteral(pat, s);
      LiteralMatch(pat, w, s);
    } else {
      r := Match2(pat, s, 0, 0);
      PatternFits(pat, w, s);
      if pat.starAtTail && r != 0 {
        PrefixLeast(pat, w, s, r);
      }
    }
  }

  lemma OnlyPart(pat: Pattern, w: string)
    requires w != "" && Compiled(pat, w) && pat.starMissing
    ensures |pat.parts| == 1 && pat.parts[0].text == w && StarFree(w)
  {
    var n := LiteralLength(w);
    SplitPart(w, 0, 0);
    assert w[0..] == w && w[0..0 + n] == w[..n] && w[0 + n..] == w[n..];
    if n < |w| {
      if Split(w[n..], 0) == [] {
        NoParts(w[n..], 0);
      }
    } else {
      assert w[..n] == w;
    }
  }

  lemma LiteralMatch(pat: Pattern, w: string, s: string)
    requires StarFree(w)
    ensures Matches(w, s) <==> |s| == |w| && MatchesAt(s, 0, w)
  {
    hide Matches;
    LiteralFirst(w, "", s);
    assert w + "" == w;
    if |w| <= |s| {
      EmptyMatch(s[|w|..]);
    }
  }

  /** The parts lie in a prefix just where they lie in the string and end soon enough. */
  lemma {:induction false} PrefixEnds(parts: seq<Part>, s: string, n: nat, i: nat, e: nat)
    requires n <= |s| && i <= n
    ensures EndsAt(parts, s[..n], i, e) <==> EndsAt(parts, s, i, e) && e <= n
  {
    if parts != [] {
      var c, rest := parts[0].text, parts[1..];
      if EndsAt(parts, s[..n], i, e) {
        var p: nat :| i <= p && MatchesAt(s[..n], p, c) && EndsAt(rest, s[..n], p + |c|, e);
        PrefixEnds(rest, s, n, p + |c|, e);
        PrefixAt(s, n, p, c);
      }
      if EndsAt(parts, s, i, e) && e <= n {
        var p: nat :| i <= p && MatchesAt(s, p, c) && EndsAt(rest, s, p + |c|, e);
        EndsBounds(rest, s, p + |c|, e);
        PrefixEnds(rest, s, n, p + |c|, e);
        PrefixAt(s, n, p, c);
      }
    }
  }

  lemma PrefixAt(s: string, n: nat, p: nat, c: string)
    requires n <= |s|
    ensures MatchesAt(s[..n], p, c) <==> MatchesAt(s, p, c) && p + |c| <= n
  {
  }

  lemma PrefixPlaced(pat: Pattern, s: string, n: nat, e: nat)
    requires n <= |s|
    ensures Placed(pat, s[..n], 0, 0, e) <==> Placed(pat, s, 0, 0, e) && e <= n
  {
    hide EndsAt;
    if |pat.parts| > 0 && !pat.starAtHead {
      var c := pat.parts[0].text;
      PrefixAt(s, n, 0, c);
      if |c| <= n {
        PrefixEnds(pat.parts[1..], s, n, |c|, e);
      } else if MatchesAt(s, 0, c) && EndsAt(pat.parts[1..], s, |c|, e) {
        EndsBounds(pat.parts[1..], s, |c|, e);
      }
    } else {
      PrefixEnds(pat.parts[0..], s, n, 0, e);
    }
  }

  lemma PrefixLeast(pat: Pattern, w: string, s: string, r: nat)
    requires w != "" && Compiled(pat, w) && pat.starAtTail && r != 0 && Sound(pat, s, 0, 0, r) && Least(pat, s, 0, 0, r)
    ensures r - 1 <= |s| && Matches(w, s[..r - 1])
    ensures Plain(pat) ==> forall n | 0 <= n < r - 1 :: !Matches(w, s[..n])
  {
    hide EndsAt, Plain, Compiled;
    PlacedBound(pat, s, r - 1);
    hide Placed;
    PrefixPlaced(pat, s, r - 1, r - 1);
    PatternFits(pat, w, s[..r - 1]);
    if Plain(pat) {
      forall n | 0 <= n < r - 1
        ensures !Matches(w, s[..n])
      {
        PatternFits(pat, w, s[..n]);
        forall e: nat
          ensures !Placed(pat, s[..n], 0, 0, e)
        {
          PrefixPlaced(pat, s, n, e);
        }
      }
    }
  }

  lemma PlacedBound(pat: Pattern, s: string, e: nat)
    requires Placed(pat, s, 0, 0, e)
    ensures e <= |s|
  {
    hide EndsAt;
    if |pat.parts| > 0 && !pat.starAtHead {
      EndsBounds(pat.parts[1..], s, |pat.parts[0].text|, e);
    } else {
      EndsBounds(pat.parts[0..], s, 0, e);
    }
  }

  // ---- when nothing is missed

  /** Some string has two overlapping occurrences of `c`. */
  predicate SelfOverlap(c: string) {
    exists k :: 0 < k < |c| && Shifted(c, k)
  }

  predicate Shifted(c: string, k: nat) {
    forall i | k <= i < |c| :: c[i] == '?' || c[i - k] == '?' || c[i] == c[i - k]
  }

  lemma OverlapShows(c: string, s: string, p: nat, q: nat)
    requires p < q < p + |c| && MatchesAt(s, p, c) && MatchesAt(s, q, c)
    ensures SelfOverlap(c)
  {
    var k := q - p;
    forall i | k <= i < |c|
      ensures c[i] == '?' || c[i - k] == '?' || c[i] == c[i - k]
    {
      assert c[i] == '?' || s[p + i] == c[i];
      assert c[i - k] == '?' || s[q + (i - k)] == c[i - k];
    }
    assert Shifted(c, k);
  }

  /** A last part that cannot overlap itself is enough, whatever the string. */
  lemma NoOverlapApart(pat: Pattern, s: string)
    requires pat.parts != [] ==> !SelfOverlap(pat.parts[|pat.parts| - 1].text)
    ensures LastApart(pat, s)
  {
    if pat.parts != [] {
      var c := pat.parts[|pat.parts| - 1].text;
      forall p, q | 0 <= p < q <= |s| && MatchesAt(s, p, c) && MatchesAt(s, q, c)
        ensures p + |c| <= q
      {
        if q < p + |c| {
          OverlapShows(c, s, p, q);
        }
      }
    }
  }

  lemma {:induction false} VisitsEnd(s: string, c: string, i: nat)
    requires c != ""
    ensures Visits(s, c, i) ==> |c| <= |s| && MatchesAt(s, |s| - |c|, c)
    ensures |c| <= |s| && i <= |s| - |c| && MatchesAt(s, |s| - |c|, c) && !SelfOverlap(c) ==> Visits(s, c, i)
    decreases |s| - i
  {
    hide SelfOverlap;
    FirstFromFinds(s, c, i, false);
    var p := FirstFrom(s, c, i, false);
    if p >= i && i < |s| {
      VisitsEnd(s, c, p + |c|);
      var z := |s| - |c|;
      if i <= z && p < z < p + |c| && MatchesAt(s, z, c) {
        OverlapShows(c, s, p, z);
      }
    }
  }

  lemma {:induction false} FirstFromFinds(s: string, c: string, i: nat, tight: bool)
    requires c != ""
    ensures var p := FirstFrom(s, c, i, tight);
      && p >= -1
      && (p >= 0 ==> i <= p && MatchesAt(s, p, c) && Reaches(s, i, p, tight) && forall q | i <= q < p && Reaches(s, i, q, tight) :: !MatchesAt(s, q, c))
      && (p == -1 ==> forall q | i <= q <= |s| && Reaches(s, i, q, tight) :: !MatchesAt(s, q, c))
    decreases |s| - i
  {
    if i < |s| && !MatchesAt(s, i, c) {
      if !(tight && s[i] == '\\') {
        FirstFromFinds(s, c, i + 1, tight);
        assert forall q | i < q <= |s| && Reaches(s, i, q, tight) :: Reaches(s, i + 1, q, tight);
      } else {
        assert forall q | i < q <= |s| :: !Reaches(s, i, q, tight);
      }
    }
  }

  /** A string with `c` at its start and, overlapping, at its end. */
  function Overlapped(c: string, k: nat, fill: char): string
    requires 0 < k < |c|
  {
    seq(|c| + k, i requires 0 <= i < |c| + k =>
      if i < |c| && c[i] != '?' then c[i] else if k <= i && c[i - k] != '?' then c[i - k] else fill)
  }

  lemma OverlappedEnds(c: string, k: nat, fill: char)
    requires 0 < k < |c| && Shifted(c, k)
    ensures MatchesAt(Overlapped(c, k, fill), 0, c) && MatchesAt(Overlapped(c, k, fill), k, c)
  {
    var s := Overlapped(c, k, fill);
    forall i | 0 <= i < |c|
      ensures c[i] == '?' || s[k + i] == c[i]
    {
      if k + i < |c| {
        assert c[k + i] == '?' || c[k + i - k] == '?' || c[k + i] == c[k + i - k];
      }
    }
  }

  /** Behind any front the scan meets the first of the two occurrences and steps over the second. */
  lemma OverlapNotVisited(c: string, k: nat, front: string, fill: char)
    requires 0 < k < |c| && Shifted(c, k)
    ensures var s := front + Overlapped(c, k, fill); MatchesAt(s, |front| + k, c) && !Visits(s, c, |front|)
  {
    var o := Overlapped(c, k, fill);
    var s, n := front + o, |front|;
    OverlappedEnds(c, k, fill);
    assert forall i | 0 <= i < |o| :: s[n + i] == o[i];
    MovedAt(s, o, n, 0, c);
    MovedAt(s, o, n, k, c);
    hide Overlapped;
    FirstFromIs(s, c, n, n, false);
    FirstFromIs(s, c, n + |c|, -1, false);
  }

  lemma MovedAt(s: string, o: string, n: nat, p: nat, c: string)
    requires |s| >= n + |o| && (forall i | 0 <= i < |o| :: s[n + i] == o[i]) && MatchesAt(o, p, c)
    ensures MatchesAt(s, n + p, c)
  {
    forall i | 0 <= i < |c|
      ensures c[i] == '?' || s[n + p + i] == c[i]
    {
      assert s[n + (p + i)] == o[p + i];
    }
  }

  /** The scans for the last part alone. */
  lemma {:induction false} FindsLast(pat: Pattern, s: string, i: nat)
    requires PartsOk(pat) && pat.parts != [] && !pat.starAtTail && (i > 0 || pat.starAtHead) && !pat.parts[|pat.parts| - 1].noBackslash
    ensures Finds(pat, s, i, |pat.parts| - 1) <==> Visits(s, pat.parts[|pat.parts| - 1].text, i)
    decreases |s| - i
  {
    var c := pat.parts[|pat.parts| - 1].text;
    var p := FirstFrom(s, c, i, false);
    if p >= 0 {
      FindsLast(pat, s, p + |c|);
    }
  }

  lemma FindsAll(pat: Pattern, s: string, i: nat)
    requires PartsOk(pat)
    ensures Finds(pat, s, i, |pat.parts|) <==> pat.starAtTail || i == |s|
  {
  }

  lemma PlacedNow(pat: Pattern, s: string, i: nat, k: nat, p: nat, e: nat)
    requires PartsOk(pat) && k < |pat.parts| && i <= p && MatchesAt(s, p, pat.parts[k].text) && (i == 0 && !pat.starAtHead ==> p == 0)
    requires Placed(pat, s, p + |pat.parts[k].text|, k + 1, e)
    ensures Placed(pat, s, i, k, e)
  {
    hide EndsAt;
    PlacedTail(pat, s, p + |pat.parts[k].text|, k + 1, e);
    EndsWith(pat, s, i, k, e, p);
  }

  lemma PlacedLater(pat: Pattern, s: string, i: nat, k: nat, p: nat, e: nat)
    requires PartsOk(pat) && k < |pat.parts| && i <= p && MatchesAt(s, p, pat.parts[k].text)
    requires i == 0 && !pat.starAtHead ==> p == 0 && k + 1 < |pat.parts|
    requires Placed(pat, s, p + |pat.parts[k].text|, k, e)
    ensures Placed(pat, s, i, k, e)
  {
    hide EndsAt;
    var c := pat.parts[k].text;
    PlacedTail(pat, s, p + |c|, k, e);
    EndsEarlier(pat.parts[k..], s, p + |c|, i, e);
    if i == 0 && !pat.starAtHead {
      var q := EndsFirst(pat, s, |c|, k, e);
      EndsEarlier(pat.parts[k + 1..], s, q + |c|, |c|, e);
    }
  }

  /** What the scans find is a placement of the parts. */
  lemma {:induction false} FindsPlaced(pat: Pattern, s: string, i: nat, k: nat) returns (e: nat)
    requires PartsOk(pat) && k <= |pat.parts| && FirstOnly(i, k) && Finds(pat, s, i, k)
    ensures Placed(pat, s, i, k, e) && (pat.starAtTail || e == |s|)
    decreases |pat.parts| - k, |s| - i
  {
    hide EndsAt, Finds, FirstFrom;
    if k == |pat.parts| {
      e := i;
      FindsAll(pat, s, i);
      EndsNone(s, i, e);
      assert pat.parts[k..] == [];
    } else {
      hide Placed;
      var c := pat.parts[k].text;
      FindsStep(pat, s, i, k);
      var p := FirstFrom(s, c, i, pat.parts[k].noBackslash);
      FindsAll(pat, s, p + |c|);
      if Finds(pat, s, p + |c|, k + 1) {
        e := FindsPlaced(pat, s, p + |c|, k + 1);
        PlacedNow(pat, s, i, k, p, e);
      } else {
        e := FindsPlaced(pat, s, p + |c|, k);
        PlacedLater(pat, s, i, k, p, e);
      }
    }
  }

  lemma FindsMatches(pat: Pattern, w: string, s: string)
    requires w != "" && Compiled(pat, w) && PartsOk(pat)
    ensures Finds(pat, s, 0, 0) ==> Matches(w, s)
  {
    hide Compiled, Finds, Matches, Placed;
    PatternFits(pat, w, s);
    if Finds(pat, s, 0, 0) {
      var e := FindsPlaced(pat, s, 0, 0);
    }
  }

  // ---- patterns of one star

  /** `front` is empty or has no star; the pattern is `front*c`. */
  function OneStar(front: string, c: string): string {
    front + "*" + c
  }

  predicate OneStarOk(pat: Pattern, front: string, c: string) {
    && StarFree(front) && StarFree(c) && c != "" && Compiled(pat, OneStar(front, c))
  }

  /** Its meaning: the front at the start and `c` at the end, not overlapping. */
  lemma OneStarMatches(front: string, c: string, s: string)
    requires StarFree(front) && StarFree(c)
    ensures Matches(OneStar(front, c), s) <==>
      MatchesAt(s, 0, front) && |front| + |c| <= |s| && MatchesAt(s, |s| - |c|, c)
  {
    hide Matches, MatchesAt, StarFree;
    var w := "*" + c;
    assert OneStar(front, c) == front + w && w[1..] == c;
    LiteralFirst(front, w, s);
    if |front| <= |s| {
      StarFirst(w, s, |front|);
      if Matches(w, s[|front|..]) {
        var k :| |front| <= k <= |s| && Matches(c, s[k..]);
        EndsHere(c, s, k);
      }
      if |front| + |c| <= |s| && MatchesAt(s, |s| - |c|, c) {
        EndsHere(c, s, |s| - |c|);
      }
    } else {
      TooLong(s, 0, front);
    }
  }

  lemma TooLong(s: string, p: nat, c: string)
    requires p + |c| > |s|
    ensures !MatchesAt(s, p, c)
  {
  }

  lemma EndsHere(c: string, s: string, k: nat)
    requires StarFree(c) && k <= |s|
    ensures Matches(c, s[k..]) <==> MatchesAt(s, k, c) && k + |c| == |s|
  {
    hide Matches;
    assert c + "" == c;
    LiteralAt(c, "", s, k);
    if k + |c| <= |s| {
      EmptyMatch(s[k + |c|..]);
    }
  }

  lemma OneStarParts(pat: Pattern, front: string, c: string)
    requires OneStarOk(pat, front, c)
    ensures pat.parts == (if front == "" then [] else [Part(front, false)]) + [Part(c, false)]
    ensures pat.starAtHead == (front == "") && !pat.starAtTail && PartsOk(pat) && Plain(pat)
  {
    hide Split;
    FrontSplit(front, c);
    var w := OneStar(front, c);
    assert w[|w| - 1] == c[|c| - 1];
    assert w[0] == if front == "" then '*' else front[0];
  }

  lemma FrontSplit(front: string, c: string)
    requires StarFree(front) && StarFree(c) && c != ""
    ensures Split(OneStar(front, c), 0) == (if front == "" then [] else [Part(front, false)]) + [Part(c, false)]
  {
    hide Split;
    var w, v := OneStar(front, c), "*" + c;
    OneStarSplit(c);
    assert w == front + v;
    if front == "" {
      assert w == v;
    } else {
      LiteralAll(front, v);
      hide LiteralLength;
      SplitPart(w, 0, 0);
      assert w[0..] == w && w[0..0 + |front|] == front && w[0 + |front|..] == v;
    }
  }

  lemma OneStarSplit(c: string)
    requires StarFree(c) && c != ""
    ensures Split("*" + c, 0) == [Part(c, false)]
  {
    var v := "*" + c;
    assert v[1..] == c && c[0..] == c;
    LiteralAll(c, "");
    assert c + "" == c;
    SplitPart(c, 0, 1);
    assert c[0 + |c|..] == "" && c[0..0 + |c|] == c;
    NoMore();
  }

  lemma {:induction false} LiteralAll(front: string, rest: string)
    requires StarFree(front) && (rest != "" ==> rest[0] == '*')
    ensures LiteralLength(front + rest) == |front|
  {
    if front == "" {
      assert front + rest == rest;
    } else {
      LiteralAll(front[1..], rest);
      assert (front + rest)[1..] == front[1..] + rest;
    }
  }

  /** Behind a front that lies only at the start, what is found is what one scan visits. */
  lemma OneStarFinds(pat: Pattern, front: string, c: string, s: string)
    requires OneStarOk(pat, front, c)
    ensures PartsOk(pat)
    ensures MatchesAt(s, 0, front) && Visits(s, c, |front|) ==> Finds(pat, s, 0, 0)
    ensures (forall q | |front| <= q <= |s| :: front == "" || !MatchesAt(s, q, front)) && Finds(pat, s, 0, 0) ==> Visits(s, c, |front|)
  {
    OneStarParts(pat, front, c);
    hide Compiled, Visits;
    FindsLast(pat, s, |front|);
    if front != "" {
      hide Finds;
      OneStarRetry(pat, front, s);
    }
  }

  lemma FirstAtStart(s: string, c: string)
    requires c != ""
    ensures FirstFrom(s, c, 0, false) == 0 <==> MatchesAt(s, 0, c)
  {
  }

  lemma {:induction false} FirstNone(s: string, c: string, i: nat)
    requires c != ""
    ensures (forall q | i <= q <= |s| :: !MatchesAt(s, q, c)) ==> FirstFrom(s, c, i, false) == -1
    decreases |s| - i
  {
    hide MatchesAt;
    if i < |s| {
      FirstNone(s, c, i + 1);
    }
  }

  lemma OneStarRetry(pat: Pattern, front: string, s: string)
    requires PartsOk(pat) && front != "" && |pat.parts| == 2 && pat.parts[0] == Part(front, false) && !pat.starAtHead
    ensures MatchesAt(s, 0, front) && Finds(pat, s, |front|, 1) ==> Finds(pat, s, 0, 0)
    ensures (forall q | |front| <= q <= |s| :: !MatchesAt(s, q, front)) && Finds(pat, s, 0, 0) ==> Finds(pat, s, |front|, 1)
  {
    hide Finds, FirstFrom, MatchesAt, PartsOk;
    FirstAtStart(s, front);
    FirstNone(s, front, |front|);
    FindsStep(pat, s, 0, 0);
    FindsStep(pat, s, |front|, 0);
  }

  /** A part that can overlap itself: this string matches `*c` and is not found. */
  lemma OverlapMissed(pat: Pattern, c: string, k: nat, fill: char)
    requires OneStarOk(pat, "", c) && 0 < k < |c| && Shifted(c, k)
    ensures PartsOk(pat) && Matches(OneStar("", c), Overlapped(c, k, fill)) && !Finds(pat, Overlapped(c, k, fill), 0, 0)
  {
    hide Compiled, Visits, Finds, Matches, Overlapped;
    var s := Overlapped(c, k, fill);
    assert "" + s == s;
    OverlapNotVisited(c, k, "", fill);
    OverlappedEnds(c, k, fill);
    OneStarFinds(pat, "", c, s);
    OneStarMatches("", c, s);
    OverlappedLength(c, k, fill);
  }

  lemma OverlappedLength(c: string, k: nat, fill: char)
    requires 0 < k < |c|
    ensures |Overlapped(c, k, fill)| == |c| + k && forall x | x in Overlapped(c, k, fill) :: x in c || x == fill
  {
  }

  /** For a pattern `*c` the code finds every match in every string just when `c` cannot overlap itself. */
  lemma OneStarExact(pat: Pattern, c: string)
    requires OneStarOk(pat, "", c)
    ensures PartsOk(pat)
    ensures !SelfOverlap(c) <==> forall s: string :: Finds(pat, s, 0, 0) <==> Matches(OneStar("", c), s)
  {
    hide Compiled, Visits, Finds, Matches, Overlapped, Shifted;
    OneStarParts(pat, "", c);
    if SelfOverlap(c) {
      var k :| 0 < k < |c| && Shifted(c, k);
      OverlapMissed(pat, c, k, 'x');
    } else {
      forall s: string
        ensures Finds(pat, s, 0, 0) <==> Matches(OneStar("", c), s)
      {
        OneStarFinds(pat, "", c, s);
        OneStarMatches("", c, s);
        VisitsEnd(s, c, 0);
      }
    }
  }

  /** With a front the scan for the front goes on when the rest is not found, which gives the scan for
      `c` another start.  A front with a character of its own cannot help in that way. */
  lemma FrontMissed(pat: Pattern, front: string, c: string, k: nat, own: nat, fill: char)
    requires OneStarOk(pat, front, c) && 0 < k < |c| && Shifted(c, k)
    requires own < |front| && front[own] !in c && front[own] != '?' && fill != front[own]
    ensures var s := Filled(front, fill) + Overlapped(c, k, fill);
      PartsOk(pat) && Matches(OneStar(front, c), s) && !Finds(pat, s, 0, 0)
  {
    hide Compiled, Visits, Finds, Matches, Overlapped;
    var f, o := Filled(front, fill), Overlapped(c, k, fill);
    var s := f + o;
    OverlapNotVisited(c, k, f, fill);
    OverlappedLength(c, k, fill);
    forall q | |front| <= q <= |s|
      ensures !MatchesAt(s, q, front)
    {
      if q + |front| <= |s| {
        assert s[q + own] == o[q + own - |f|];
        assert o[q + own - |f|] in o;
      }
    }
    OneStarFinds(pat, front, c, s);
    OneStarMatches(front, c, s);
  }

  function Filled(front: string, fill: char): (f: string)
    ensures |f| == |front| && forall r: string :: MatchesAt(f + r, 0, front)
  {
    seq(|front|, i requires 0 <= i < |front| => if front[i] == '?' then fill else front[i])
  }

  /** So for these the condition is exact as well; ... */
  lemma FrontExact(pat: Pattern, front: string, c: string, own: nat)
    requires OneStarOk(pat, front, c) && own < |front| && front[own] !in c && front[own] != '?'
    ensures PartsOk(pat)
    ensures !SelfOverlap(c) <==> forall s: string :: Finds(pat, s, 0, 0) <==> Matches(OneStar(front, c), s)
  {
    hide Compiled, Visits, Finds, Matches, Overlapped, Shifted, Filled;
    OneStarParts(pat, front, c);
    if SelfOverlap(c) {
      var k :| 0 < k < |c| && Shifted(c, k);
      FrontMissed(pat, front, c, k, own, if front[own] != 'x' then 'x' else 'y');
    } else {
      forall s: string
        ensures Finds(pat, s, 0, 0) <==> Matches(OneStar(front, c), s)
      {
        FindsMatches(pat, OneStar(front, c), s);
        OneStarFinds(pat, front, c, s);
        OneStarMatches(front, c, s);
        VisitsEnd(s, c, |front|);
      }
    }
  }

  /** ... but not for every front: the second `a` gives the scan for `aa` the start it needs. */
  lemma RetryFinds(pat: Pattern)
    requires OneStarOk(pat, "a", "aa")
    ensures PartsOk(pat) && SelfOverlap("aa") && !Visits("aaaa", "aa", 1) && Finds(pat, "aaaa", 0, 0)
  {
    hide Compiled, Finds;
    var s := "aaaa";
    OneStarParts(pat, "a", "aa");
    assert Shifted("aa", 1);
    FirstFromIs(s, "a", 0, 0, false);
    FirstFromIs(s, "a", 1, 1, false);
    FirstFromIs(s, "aa", 1, 1, false);
    FirstFromIs(s, "aa", 2, 2, false);
    FirstFromIs(s, "aa", 3, -1, false);
    FindsStep(pat, s, 0, 0);
    FindsStep(pat, s, 1, 0);
    FindsStep(pat, s, 2, 1);
    FindsAll(pat, s, 4);
  }
}
