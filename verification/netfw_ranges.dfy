/** The range maps of netfw.c: ports, or addresses of 16 bytes compared as one number, in a
    red-black tree keyed by the begin of the range.  A map is the sequence of its ranges in key
    order; looking up the greatest begin not above a number, the insertion that rejects a begin
    already there and the walk in key order are those of rbtree.c. */
module FirewallRanges {
  import opened Common

  datatype Range = Range(lo: nat, hi: nat)

  const MATCH_NONE: nat := 0
  const MATCH_GLOBAL: nat := 1
  const MATCH_NOT: nat := 2
  const MATCH_RANGE: nat := 3
  const MATCH_EXACT: nat := 4

  /** In key order, each begin once, no range ending before it begins. */
  predicate MapOk(m: seq<Range>) {
    && (forall i, j | 0 <= i < j < |m| :: m[i].lo < m[j].lo)
    && (forall i | 0 <= i < |m| :: m[i].lo <= m[i].hi)
  }

  predicate Disjoint(m: seq<Range>) {
    forall i, j | 0 <= i < j < |m| :: m[i].hi < m[j].lo
  }

  /** `rbtree_find_less_equal`. */
  function FindLessEqual(m: seq<Range>, p: nat): Option<Range> {
    if m == [] then None
    else if m[|m| - 1].lo <= p then Some(m[|m| - 1])
    else FindLessEqual(m[..|m| - 1], p)
  }

  lemma {:induction false} FindIs(m: seq<Range>, p: nat)
    requires MapOk(m)
    ensures FindLessEqual(m, p).None? <==> forall r | r in m :: r.lo > p
    ensures var f := FindLessEqual(m, p); f.Some? ==> f.value in m && f.value.lo <= p && forall r | r in m && r.lo <= p :: r.lo <= f.value.lo
  {
    if m != [] {
      var l := m[|m| - 1];
      assert m == m[..|m| - 1] + [l];
      if l.lo > p {
        FindIs(m[..|m| - 1], p);
      }
    }
  }

  /** Ranges with one begin are one range. */
  lemma SameBegin(m: seq<Range>, r: Range, q: Range)
    requires MapOk(m) && r in m && q in m && r.lo == q.lo
    ensures r == q && r.lo <= r.hi
  {
  }

  function LevelOf(r: Range): nat {
    if r.lo == r.hi then MATCH_EXACT else MATCH_RANGE
  }

  /** `NetFw_MatchPort` and `NetFw_MatchAddress`. */
  function Match(m: seq<Range>, p: nat): nat {
    if m == [] then MATCH_GLOBAL else Answer(FindLessEqual(m, p), p)
  }

  function Answer(node: Option<Range>, p: nat): nat {
    if node.None? || node.value.hi < p then MATCH_NONE else LevelOf(node.value)
  }

  // ---- inserting

  /** `rbtree_insert`: nothing happens when the begin is there already. */
  function Inserted(m: seq<Range>, r: Range): seq<Range> {
    if m == [] || m[|m| - 1].lo < r.lo then m + [r]
    else if m[|m| - 1].lo == r.lo then m
    else Inserted(m[..|m| - 1], r) + [m[|m| - 1]]
  }

  lemma {:induction false} InsertedIs(m: seq<Range>, r: Range)
    requires MapOk(m) && r.lo <= r.hi
    ensures MapOk(Inserted(m, r))
    ensures forall x :: x in Inserted(m, r) <==> x in m || (x == r && forall q | q in m :: q.lo != r.lo)
  {
    if m != [] && m[|m| - 1].lo >= r.lo {
      var l, rest := m[|m| - 1], m[..|m| - 1];
      assert m == rest + [l];
      if l.lo > r.lo {
        InsertedIs(rest, r);
        BelowLast(m, r, Inserted(rest, r));
        Snoc(Inserted(rest, r), l);
      }
    } else if m != [] {
      Snoc(m, r);
    }
  }

  lemma BelowLast(m: seq<Range>, r: Range, t: seq<Range>)
    requires MapOk(m) && m != [] && m[|m| - 1].lo > r.lo
    requires forall x | x in t :: x in m[..|m| - 1] || x == r
    ensures forall x | x in t :: x.lo < m[|m| - 1].lo
  {
  }

  lemma Snoc(m: seq<Range>, r: Range)
    requires MapOk(m) && r.lo <= r.hi && forall x | x in m :: x.lo < r.lo
    ensures MapOk(m + [r])
  {
  }

  // ---- NetFw_MergePortMaps, NetFw_MergeIPMaps

  /** The test of the first loop: a range of `dst` that begins no later ends no earlier. */
  predicate Overlaps(dst: seq<Range>, s: Range) {
    var node := FindLessEqual(dst, s.lo);
    node.Some? && node.value.hi >= s.hi
  }

  /** The second loop. */
  function AllInserted(dst: seq<Range>, src: seq<Range>): seq<Range> {
    if src == [] then dst else Inserted(AllInserted(dst, src[..|src| - 1]), src[|src| - 1])
  }

  lemma {:induction false} AllInsertedIs(dst: seq<Range>, src: seq<Range>)
    requires MapOk(dst) && MapOk(src)
    ensures MapOk(AllInserted(dst, src))
    ensures forall x :: x in AllInserted(dst, src) <==> x in dst || (x in src && forall q | q in dst :: q.lo != x.lo)
  {
    if src != [] {
      var r, rest := src[|src| - 1], src[..|src| - 1];
      assert src == rest + [r];
      AllInsertedIs(dst, rest);
      InsertedIs(AllInserted(dst, rest), r);
      hide Inserted;
      LastNew(dst, rest, r, AllInserted(dst, rest));
    }
  }

  lemma LastNew(dst: seq<Range>, rest: seq<Range>, r: Range, m: seq<Range>)
    requires MapOk(rest + [r])
    requires forall x :: x in m <==> x in dst || (x in rest && forall q | q in dst :: q.lo != x.lo)
    ensures (forall q | q in m :: q.lo != r.lo) <==> (forall q | q in dst :: q.lo != r.lo)
  {
    var src := rest + [r];
    assert forall q | q in rest :: q.lo != r.lo by {
      forall q | q in rest
        ensures q.lo != r.lo
      {
        var i :| 0 <= i < |rest| && rest[i] == q;
        assert src[i] == q && src[|rest|] == r;
      }
    }
  }

  method MergeMaps(dst: seq<Range>, src: seq<Range>) returns (merged: seq<Range>, ok: bool)
    requires MapOk(dst) && MapOk(src)
    ensures ok <==> forall s | s in src :: !Overlaps(dst, s)
    ensures merged == if ok then AllInserted(dst, src) else dst
    ensures MapOk(merged)
  {
    hide MapOk, Overlaps, Inserted;
    merged := dst;
    var i := 0;
    while i < |src|
      invariant 0 <= i <= |src| && forall k | 0 <= k < i :: !Overlaps(dst, src[k])
    {
      if Overlaps(dst, src[i]) {
        return dst, false;
      }
      i := i + 1;
    }
    i := 0;
    while i < |src|
      invariant 0 <= i <= |src| && merged == AllInserted(dst, src[..i])
    {
      merged := Inserted(merged, src[i]);
      assert src[..i + 1][..i] == src[..i];
      i := i + 1;
    }
    assert src[..i] == src;
    AllInsertedIs(dst, src);
    ok := true;
  }

  // ---- when merging keeps every lookup

  function Max(a: nat, b: nat): nat {
    if a >= b then a else b
  }

  /** A range of `src` reaches over a whole range of `dst` and on behind it, where no other range
      of `dst` takes up. */
  predicate Loses(dst: seq<Range>, src: seq<Range>) {
    exists s, d | s in src && d in dst :: Swallowed(dst, s, d)
  }

  predicate Swallowed(dst: seq<Range>, s: Range, d: Range) {
    s.lo <= d.lo && d.hi < s.hi && forall e | e in dst :: e.lo != d.hi + 1
  }

  /** Where the merged map is looked up: in the range that begins last. */
  lemma MergedFind(dst: seq<Range>, src: seq<Range>, p: nat)
    requires MapOk(dst) && MapOk(src)
    ensures MapOk(AllInserted(dst, src))
    ensures var d, s, f := FindLessEqual(dst, p), FindLessEqual(src, p), FindLessEqual(AllInserted(dst, src), p);
      f == if s.None? || (d.Some? && d.value.lo >= s.value.lo) then d else s
  {
    var m := AllInserted(dst, src);
    AllInsertedIs(dst, src);
    FindIs(dst, p);
    FindIs(src, p);
    FindIs(m, p);
    var d, s, f := FindLessEqual(dst, p), FindLessEqual(src, p), FindLessEqual(m, p);
    hide FindLessEqual, AllInserted;
    if s.None? || (d.Some? && d.value.lo >= s.value.lo) {
      if d.Some? {
        assert d.value in m;
        SameBegin(m, f.value, d.value);
      }
    } else {
      assert s.value in m;
      SameBegin(m, f.value, s.value);
    }
  }

  /** A merge that is not refused and loses nothing answers every lookup with the better of the
      answers the two maps gave. */
  lemma MergeKeepsLookup(dst: seq<Range>, src: seq<Range>, p: nat)
    requires MapOk(dst) && MapOk(src) && dst != [] && src != []
    requires (forall s | s in src :: !Overlaps(dst, s)) && !Loses(dst, src)
    ensures Match(AllInserted(dst, src), p) == Max(Match(dst, p), Match(src, p))
  {
    hide AllInserted, Loses, Overlaps, FindLessEqual, MapOk;
    var m := AllInserted(dst, src);
    AllInsertedIs(dst, src);
    assert dst[0] in m;
    MergedFind(dst, src, p);
    var d, s := FindLessEqual(dst, p), FindLessEqual(src, p);
    if s.Some? && d.Some? {
      Found(dst, p, d.value);
      Found(src, p, s.value);
      NotOverlapped(dst, src, s.value, d.value, p);
      if d.value.lo >= s.value.lo {
        NotLost(dst, src, s.value, d.value, p);
      }
    }
  }

  lemma Found(m: seq<Range>, p: nat, r: Range)
    requires MapOk(m) && FindLessEqual(m, p) == Some(r)
    ensures r in m && r.lo <= p && r.lo <= r.hi
  {
    FindIs(m, p);
    hide FindLessEqual;
  }

  lemma NotOverlapped(dst: seq<Range>, src: seq<Range>, s: Range, d: Range, p: nat)
    requires MapOk(dst) && s in src && FindLessEqual(dst, p) == Some(d) && s.lo <= p && !Overlaps(dst, s)
    ensures d.lo <= s.lo ==> d.hi < s.hi
  {
    if d.lo <= s.lo {
      CommonFind(dst, d, s.lo, p);
    }
  }

  lemma NotLost(dst: seq<Range>, src: seq<Range>, s: Range, d: Range, p: nat)
    requires MapOk(dst) && s in src && FindLessEqual(dst, p) == Some(d) && s.lo <= d.lo && !Loses(dst, src)
    ensures !(d.hi < p <= s.hi)
  {
    FindIs(dst, p);
    hide FindLessEqual;
    assert !Swallowed(dst, s, d);
  }

  /** Between a begin and `p` no range begins: both are looked up in the same range. */
  lemma CommonFind(dst: seq<Range>, d: Range, q: nat, p: nat)
    requires MapOk(dst) && FindLessEqual(dst, p) == Some(d) && d.lo <= q <= p
    ensures FindLessEqual(dst, q) == Some(d)
  {
    FindIs(dst, p);
    FindIs(dst, q);
    SameBegin(dst, FindLessEqual(dst, q).value, d);
  }

  /** ... and where something is lost, a lookup shows it: for maps of disjoint ranges `Loses` is
      exactly the condition under which merging changes an answer. */
  lemma LossShows(dst: seq<Range>, src: seq<Range>) returns (p: nat)
    requires MapOk(dst) && MapOk(src) && Disjoint(dst) && Disjoint(src) && Loses(dst, src)
    ensures Match(AllInserted(dst, src), p) == MATCH_NONE && Match(dst, p) == MATCH_NONE && Match(src, p) >= MATCH_RANGE
  {
    var s, d :| s in src && d in dst && Swallowed(dst, s, d);
    p := d.hi + 1;
    AllInsertedIs(dst, src);
    assert d in AllInserted(dst, src);
    MergedFind(dst, src, p);
    hide AllInserted;
    SameBegin(dst, d, d);
    LastBefore(dst, d, p);
    LastBefore(src, s, p);
    hide FindLessEqual;
  }

  lemma LastBefore(m: seq<Range>, r: Range, p: nat)
    requires MapOk(m) && Disjoint(m) && r in m && r.lo <= p
    requires p <= r.hi || (p == r.hi + 1 && forall e | e in m :: e.lo != p)
    ensures FindLessEqual(m, p) == Some(r)
  {
    FindIs(m, p);
    var f := FindLessEqual(m, p);
    hide FindLessEqual;
    if f.value.lo > r.lo {
      OrderedPair(m, r, f.value);
    } else {
      SameBegin(m, r, f.value);
    }
  }

  /** Both directions. */
  lemma MergeIsExact(dst: seq<Range>, src: seq<Range>)
    requires MapOk(dst) && MapOk(src) && Disjoint(dst) && Disjoint(src) && dst != [] && src != []
    requires forall s | s in src :: !Overlaps(dst, s)
    ensures (forall p: nat :: Match(AllInserted(dst, src), p) == Max(Match(dst, p), Match(src, p))) <==> !Loses(dst, src)
  {
    hide Match, AllInserted, Loses, MapOk, Disjoint, Overlaps;
    if Loses(dst, src) {
      var p := LossShows(dst, src);
    } else {
      forall p: nat
        ensures Match(AllInserted(dst, src), p) == Max(Match(dst, p), Match(src, p))
      {
        MergeKeepsLookup(dst, src, p);
      }
    }
  }

  /** Each range of `src` is apart from, or inside, each range of `dst`. */
  predicate ApartOrInside(dst: seq<Range>, src: seq<Range>) {
    forall s, d | s in src && d in dst :: s.hi < d.lo || d.hi < s.lo || (d.lo <= s.lo && s.hi <= d.hi)
  }

  /** Then nothing is lost, a merge is refused just when a range lies inside another, and one that
      is not refused leaves disjoint ranges. */
  lemma ApartOrInsideMerges(dst: seq<Range>, src: seq<Range>)
    requires MapOk(dst) && MapOk(src) && Disjoint(dst) && Disjoint(src) && ApartOrInside(dst, src)
    ensures !Loses(dst, src)
    ensures (forall s | s in src :: !Overlaps(dst, s)) ==> MapOk(AllInserted(dst, src)) && Disjoint(AllInserted(dst, src))
  {
    NothingLost(dst, src);
    if forall s | s in src :: !Overlaps(dst, s) {
      AllInsertedIs(dst, src);
      var m := AllInserted(dst, src);
      hide AllInserted, Loses;
      forall i, j | 0 <= i < j < |m|
        ensures m[i].hi < m[j].lo
      {
        assert m[i] in m && m[j] in m;
        ApartPair(dst, src, m[i], m[j]);
      }
    }
  }

  lemma NothingLost(dst: seq<Range>, src: seq<Range>)
    requires MapOk(dst) && MapOk(src) && ApartOrInside(dst, src)
    ensures !Loses(dst, src)
  {
    forall s, d | s in src && d in dst
      ensures !Swallowed(dst, s, d)
    {
      SameBegin(dst, d, d);
    }
  }

  lemma ApartPair(dst: seq<Range>, src: seq<Range>, a: Range, b: Range)
    requires MapOk(dst) && MapOk(src) && Disjoint(dst) && Disjoint(src) && ApartOrInside(dst, src)
    requires (a in dst || a in src) && (b in dst || b in src) && a.lo < b.lo
    requires forall s | s in src :: !Overlaps(dst, s)
    ensures a.hi < b.lo
  {
    if a in dst && b in dst {
      OrderedPair(dst, a, b);
    } else if a in src && b in src {
      OrderedPair(src, a, b);
    } else if a in dst {
      SameBegin(src, b, b);
      if a.hi >= b.lo {
        InsideOverlaps(dst, b, a);
      }
    } else {
      SameBegin(dst, b, b);
    }
  }

  lemma OrderedPair(m: seq<Range>, a: Range, b: Range)
    requires MapOk(m) && Disjoint(m) && a in m && b in m && a.lo < b.lo
    ensures a.hi < b.lo
  {
    var i :| 0 <= i < |m| && m[i] == a;
    var j :| 0 <= j < |m| && m[j] == b;
    assert i < j;
  }

  lemma InsideOverlaps(dst: seq<Range>, s: Range, d: Range)
    requires MapOk(dst) && Disjoint(dst) && d in dst && d.lo <= s.lo && s.lo <= s.hi <= d.hi
    ensures Overlaps(dst, s)
  {
    LastBefore(dst, d, s.lo);
  }
}
