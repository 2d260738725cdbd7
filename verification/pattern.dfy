/** pattern.c: a pattern is cut at its stars into constant parts, which are then searched for one
    after the other.  Strings are without their terminating null. */
module Pattern {
  import opened Glob

  datatype Part = Part(text: string, noBackslash: bool)

  datatype Pattern = Pattern(parts: seq<Part>, starMissing: bool, starAtHead: bool, starAtTail: bool, haveAQmark: bool)

  // ---- Pattern_wcsnstr_ex

  /** No backslash from `from` up to `p`. */
  predicate NoBackslash(s: string, from: nat, p: nat) {
    p <= |s| && forall k | from <= k < p :: s[k] != '\\'
  }

  /** The first place from `from` on where `c` lies; -1 when there is none, or with
      `noBackslash` none before the next backslash. */
  method Search(s: string, from: nat, c: string, noBackslash: bool) returns (p: int)
    requires from <= |s| && c != ""
    ensures p == -1 || (from <= p <= |s| && MatchesAt(s, p, c) && (noBackslash ==> NoBackslash(s, from, p)))
    ensures forall q | from <= q <= |s| && (p != -1 ==> q < p) && (noBackslash ==> NoBackslash(s, from, q)) :: !MatchesAt(s, q, c)
  {
    p := from;
    while p < |s|
      invariant from <= p <= |s| && (noBackslash ==> NoBackslash(s, from, p))
      invariant forall q | from <= q < p && (noBackslash ==> NoBackslash(s, from, q)) :: !MatchesAt(s, q, c)
    {
      if s[p] == c[0] || c[0] == '?' {
        var i := 0;
        while i < |c|
          invariant 0 <= i <= |c| && p + i <= |s|
          invariant forall k | 0 <= k < i :: c[k] == '?' || s[p + k] == c[k]
        {
          if p + i == |s| || (s[p + i] != c[i] && c[i] != '?') {
            break;
          }
          i := i + 1;
        }
        if i == |c| {
          return;
        }
      }
      if noBackslash && s[p] == '\\' {
        return -1;
      }
      p := p + 1;
    }
    return -1;
  }

  // ---- Pattern_Create

  /** The length of the part without stars at the start of `w`. */
  function LiteralLength(w: string): (n: nat)
    ensures n <= |w| && StarFree(w[..n]) && (n < |w| ==> w[n] == '*')
  {
    if w == "" || w[0] == '*' then 0 else 1 + LiteralLength(w[1..])
  }

  /** The parts between the stars of `w`; `stars` were just in front of it.  A part behind just two
      stars must not be searched for past a backslash. */
  function Split(w: string, stars: nat): seq<Part> {
    if w == "" then []
    else if w[0] == '*' then Split(w[1..], stars + 1)
    else
      var n := LiteralLength(w);
      [Part(w[..n], stars == 2)] + Split(w[n..], 0)
  }

  /** The room for the parts, each with a null behind it. */
  function Room(parts: seq<Part>): nat {
    if parts == [] then 0 else |parts[0].text| + 1 + Room(parts[1..])
  }

  lemma {:induction false} RoomAppend(parts: seq<Part>, p: Part)
    ensures Room(parts + [p]) == Room(parts) + |p.text| + 1
  {
    if parts != [] {
      RoomAppend(parts[1..], p);
      assert (parts + [p])[1..] == parts[1..] + [p];
    } else {
      assert [p][1..] == [];
    }
  }

  /** `wcschr` for a star. */
  method NextStar(w: string, i: nat) returns (j: nat)
    requires i <= |w|
    ensures i <= j <= |w| && j - i == LiteralLength(w[i..])
  {
    j := i;
    while j < |w| && w[j] != '*'
      invariant i <= j <= |w| && LiteralLength(w[i..]) == j - i + LiteralLength(w[j..])
    {
      assert w[j..][1..] == w[j + 1..];
      j := j + 1;
    }
  }

  /** Skips stars; `stars` counts them. */
  method SkipStars(w: string, i: nat, before: nat) returns (j: nat, stars: nat)
    requires i <= |w|
    ensures i <= j <= |w| && (j < |w| ==> w[j] != '*') && stars == before + (j - i)
    ensures Split(w[j..], stars) == Split(w[i..], before)
  {
    j, stars := i, before;
    while j < |w| && w[j] == '*'
      invariant i <= j <= |w| && stars == before + (j - i) && Split(w[j..], stars) == Split(w[i..], before)
    {
      assert w[j..][1..] == w[j + 1..];
      j := j + 1;
      stars := stars + 1;
    }
  }

  /** Whether stars were in front of a part only matters for the flag. */
  lemma {:induction false} SplitStars(w: string, stars: nat, other: nat)
    ensures |Split(w, stars)| == |Split(w, other)| && Room(Split(w, stars)) == Room(Split(w, other))
  {
    if w != "" && w[0] == '*' {
      SplitStars(w[1..], stars + 1, other + 1);
    } else if w != "" {
      var n := LiteralLength(w);
      assert Split(w, stars)[1..] == Split(w[n..], 0) == Split(w, other)[1..];
    }
  }

  lemma SplitPart(w: string, i: nat, stars: nat)
    requires i < |w| && w[i] != '*'
    ensures var n := LiteralLength(w[i..]); n >= 1 && Split(w[i..], stars) == [Part(w[i..i + n], stars == 2)] + Split(w[i + n..], 0)
  {
    var n := LiteralLength(w[i..]);
    assert w[i..][..n] == w[i..i + n] && w[i..][n..] == w[i + n..];
  }

  /** The counting loop. */
  method CountParts(w: string) returns (count: nat, room: nat)
    ensures count == |Split(w, 0)| && room == Room(Split(w, 0))
  {
    hide Split, LiteralLength;
    count, room := 0, 0;
    var i := 0;
    assert w[0..] == w;
    while i != -1
      invariant -1 <= i <= |w|
      invariant i == -1 ==> count == |Split(w, 0)| && room == Room(Split(w, 0))
      invariant i != -1 ==> count + |Split(w[i..], 0)| == |Split(w, 0)| && room + Room(Split(w[i..], 0)) == Room(Split(w, 0))
      decreases if i == -1 then 0 else |w| + 1 - i
    {
      var j, stars := SkipStars(w, i, 0);
      var k := NextStar(w, j);
      SplitStars(w[j..], stars, 0);
      if j < |w| {
        SplitPart(w, j, stars);
        assert Split(w[j..], stars)[1..] == Split(w[k..], 0);
      } else {
        NoMore();
      }
      if k > j {
        room := room + (k - j + 1);
        count := count + 1;
      }
      if k < |w| {
        SplitAtStar(w, k);
        i := k + 1;
      } else {
        NoMore();
        assert w[k..] == "";
        i := -1;
      }
    }
  }

  lemma NoMore()
    ensures Split("", 0) == [] && Room([]) == 0 && forall stars :: Split("", stars) == []
  {
  }

  lemma SplitAtStar(w: string, k: nat)
    requires k < |w| && w[k] == '*'
    ensures Split(w[k..], 0) == Split(w[k + 1..], 1)
    ensures |Split(w[k..], 0)| == |Split(w[k + 1..], 0)| && Room(Split(w[k..], 0)) == Room(Split(w[k + 1..], 0))
  {
    assert w[k..][1..] == w[k + 1..];
    SplitStars(w[k + 1..], 1, 0);
  }

  /** The parts of `w`, and what the flags say. */
  predicate Compiled(pat: Pattern, w: string)
    requires w != ""
  {
    && pat.parts == Split(w, 0)
    && pat.starAtHead == (w[0] == '*') && pat.starAtTail == (w[|w| - 1] == '*')
    && pat.starMissing == (|pat.parts| <= 1 && !pat.starAtHead && !pat.starAtTail)
    && pat.haveAQmark == (pat.starMissing && '?' in w)
  }

  /** `Pattern_Create`, for a string without a `__hex` sequence.  The copying loop cuts off the
      parts the counting loop has counted and fills just the room it has reckoned. */
  method Create(w: string) returns (pat: Pattern)
    requires w != ""
    ensures Compiled(pat, w)
  {
    hide Split, LiteralLength, Room, Compiled;
    var count, room := CountParts(w);
    var parts: seq<Part>, optr := [], 0;
    NoMore();
    var i := 0;
    assert w[0..] == w;
    while i != -1
      invariant -1 <= i <= |w| && optr == Room(parts) && |parts| <= count
      invariant i == -1 ==> parts == Split(w, 0)
      invariant i != -1 ==> parts + Split(w[i..], if |parts| > 0 then 1 else 0) == Split(w, 0)
      decreases if i == -1 then 0 else |w| + 1 - i
    {
      var j, stars := SkipStars(w, i, if |parts| > 0 then 1 else 0);
      var k := NextStar(w, j);
      if j < |w| {
        SplitPart(w, j, stars);
      } else {
        NoMore();
      }
      if k > j {
        CutOff(parts, Part(w[j..k], stars == 2), Split(w[k..], 0));
        parts := parts + [Part(w[j..k], stars == 2)];
        optr := optr + (k - j + 1);
      }
      if k < |w| {
        SplitAtStar(w, k);
        i := k + 1;
      } else {
        NoMore();
        assert w[k..] == "";
        i := -1;
      }
    }
    assert |parts| == count && optr == room;
    var head, tail := w[0] == '*', w[|w| - 1] == '*';
    var missing := |parts| <= 1 && !head && !tail;
    pat := Pattern(parts, missing, head, tail, missing && '?' in w);
    IsCompiled(pat, w);
  }

  lemma CutOff(parts: seq<Part>, p: Part, rest: seq<Part>)
    ensures parts + ([p] + rest) == parts + [p] + rest && Room(parts + [p]) == Room(parts) + |p.text| + 1
  {
    RoomAppend(parts, p);
  }

  lemma IsCompiled(pat: Pattern, w: string)
    requires w != ""
    requires pat.parts == Split(w, 0) && pat.starAtHead == (w[0] == '*') && pat.starAtTail == (w[|w| - 1] == '*')
    requires pat.starMissing == (|pat.parts| <= 1 && !pat.starAtHead && !pat.starAtTail)
    requires pat.haveAQmark == (pat.starMissing && '?' in w)
    ensures Compiled(pat, w)
  {
    hide Split;
  }
}
