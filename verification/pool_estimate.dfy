/** What the estimate of a page hides: the search passes over a page whose estimate is below the request, also
    where its bitmap has the room. */
module PoolEstimate {
  import opened PoolBits
  import opened PoolModel

  /** The page has `n` free cells in a row and its estimate does not admit the request. */
  ghost predicate Overlooked(v: View, n: nat) {
    v.numFree < n && exists i: nat :: FreeRun(v.bits, i, n)
  }

  ghost predicate Overlooks(v: View) {
    exists n: nat :: Overlooked(v, n)
  }

  /** Whether a page has room is a matter of its bitmap, unless the request is overlooked. */
  lemma RoomIs(s: State, b: nat, cells: nat)
    requires b in s.views
    ensures HasRoom(s, b, cells) <==> (exists i: nat :: FreeRun(s.views[b].bits, i, cells)) && !Overlooked(s.views[b], cells)
  {
    hide FreeRun;
  }

  /** How many cells that no block uses the estimate does not count. */
  function Missing(v: View, reserved: nat): int
    requires |v.bits| == BITMAP_SIZE
  {
    NUM_CELLS - UsedCount(v.bits, reserved, NUM_CELLS) - v.numFree
  }

  /** Taking and releasing cells keeps that number. */
  lemma MissingKept(v: View, reserved: nat, index: nat, size: nat, value: bool, bits: seq<bv8>)
    requires |v.bits| == BITMAP_SIZE && Marked(bits, v.bits, index, size, value) && reserved <= index && index + size <= NUM_CELLS
    requires forall k | index <= k < index + size :: Used(v.bits, k) != value
    requires value ==> size <= v.numFree
    ensures |bits| == BITMAP_SIZE
    ensures Missing(View(bits, if value then v.numFree - size else v.numFree + size, v.runs), reserved) == Missing(v, reserved)
  {
    hide Used, UsedCount;
    MarkedCount(bits, v.bits, index, size, value, reserved, NUM_CELLS);
  }

  /** A page that overlooks requests misses cells: its estimate was lowered by a search, and not raised again. */
  lemma OverlooksMisses(v: View, reserved: nat, n: nat)
    requires PageOk(v, reserved) && Overlooked(v, n)
    ensures Missing(v, reserved) > 0
  {
    hide Used, UsedCount, InRun;
    var i: nat :| FreeRun(v.bits, i, n);
    RunIsNew(v, reserved, i, n);
    CountSplit(v.bits, reserved, i, NUM_CELLS);
    CountSplit(v.bits, i, i + n, NUM_CELLS);
    CountAll(v.bits, i, i + n, false);
  }

  lemma PartIsFree(bits: seq<bv8>, i: nat, n: nat, j: nat, m: nat)
    requires FreeRun(bits, i, n) && i <= j && j + m <= i + n
    ensures FreeRun(bits, j, m)
  {
    hide Used;
  }

  /** Right after a search in vain nothing is overlooked: no more cells are in a row than the estimate says. */
  lemma SearchedSees(v: View, cells: nat)
    requires cells >= 1 && forall i: nat :: !FreeRun(v.bits, i, cells)
    ensures !Overlooks(v.(numFree := cells - 1))
  {
    hide Used;
    var low := v.(numFree := cells - 1);
    forall n: nat
      ensures !Overlooked(low, n)
    {
      if Overlooked(low, n) {
        var i: nat :| FreeRun(v.bits, i, n);
        PartIsFree(v.bits, i, n, i, cells);
      }
    }
  }

  /** Taking cells makes a page overlook requests just when a longer run is left than the estimate says then. */
  lemma TakenOverlooks(v: View, index: nat, size: nat, bits: seq<bv8>)
    requires Marked(bits, v.bits, index, size, true) && size <= v.numFree
    ensures Overlooks(View(bits, v.numFree - size, v.runs)) <==>
      exists i: nat, n: nat :: FreeRun(v.bits, i, n) && n > v.numFree - size && (i + n <= index || index + size <= i || size == 0)
  {
    hide Used;
    var w := View(bits, v.numFree - size, v.runs);
    if Overlooks(w) {
      var n: nat :| Overlooked(w, n);
      var i: nat :| FreeRun(bits, i, n);
      StillFree(v.bits, bits, index, size, i, n);
    }
    if i: nat, n: nat :| FreeRun(v.bits, i, n) && n > v.numFree - size && (i + n <= index || index + size <= i || size == 0) {
      forall k | i <= k < i + n
        ensures !Used(bits, k)
      {
        assert Used(bits, k) == Used(v.bits, k);
      }
      assert FreeRun(bits, i, n);
      assert Overlooked(w, n);
    }
  }

  lemma StillFree(was: seq<bv8>, bits: seq<bv8>, index: nat, size: nat, i: nat, n: nat)
    requires Marked(bits, was, index, size, true) && FreeRun(bits, i, n) && n > 0
    ensures FreeRun(was, i, n) && (i + n <= index || index + size <= i || size == 0)
  {
    hide Used;
    forall k | i <= k < i + n
      ensures !Used(was, k)
    {
      assert !Used(bits, k);
    }
    NotMarked(was, bits, index, size, i, n, i);
    NotMarked(was, bits, index, size, i, n, index);
  }

  lemma NotMarked(was: seq<bv8>, bits: seq<bv8>, index: nat, size: nat, i: nat, n: nat, k: nat)
    requires Marked(bits, was, index, size, true) && FreeRun(bits, i, n)
    ensures i <= k < i + n ==> !(index <= k < index + size)
  {
    hide Used;
    if i <= k < i + n {
      assert !Used(bits, k);
    }
  }

  /** Releasing cells in a page that overlooks nothing makes it overlook requests just when the free cells around
      them add up to more than the estimate says then. */
  lemma ReleasedOverlooks(v: View, index: nat, size: nat, bits: seq<bv8>)
    requires size >= 1 && Marked(bits, v.bits, index, size, false) && !Overlooks(v) && index + size <= 8 * |bits|
    ensures Overlooks(View(bits, v.numFree + size, v.runs)) <==>
      exists i: nat, n: nat :: FreeRun(bits, i, n) && n > v.numFree + size && i <= index && index + size <= i + n
  {
    hide Used;
    var w := View(bits, v.numFree + size, v.runs);
    if Overlooks(w) {
      var n: nat :| Overlooked(w, n);
      var i: nat :| FreeRun(bits, i, n);
      if i + n <= index || index + size <= i {
        WasFree(v.bits, bits, index, size, i, n);
        Sees(v, i, n);
      } else {
        var lo, hi := if i < index then i else index, if i + n > index + size then i + n else index + size;
        Widened(v.bits, bits, index, size, i, n, lo, hi);
        assert FreeRun(bits, lo, hi - lo) && hi - lo > w.numFree && lo <= index && index + size <= lo + (hi - lo);
      }
    }
    if i: nat, n: nat :| FreeRun(bits, i, n) && n > v.numFree + size && i <= index && index + size <= i + n {
      assert Overlooked(w, n);
    }
  }

  lemma Sees(v: View, i: nat, n: nat)
    requires !Overlooks(v) && FreeRun(v.bits, i, n)
    ensures n <= v.numFree
  {
    hide FreeRun;
    assert Overlooked(v, n) <==> v.numFree < n;
  }

  lemma WasFree(was: seq<bv8>, bits: seq<bv8>, index: nat, size: nat, i: nat, n: nat)
    requires Marked(bits, was, index, size, false) && FreeRun(bits, i, n) && (i + n <= index || index + size <= i)
    ensures FreeRun(was, i, n)
  {
    hide Used;
    forall k | i <= k < i + n
      ensures !Used(was, k)
    {
      assert Used(bits, k) == Used(was, k);
    }
  }

  lemma Widened(was: seq<bv8>, bits: seq<bv8>, index: nat, size: nat, i: nat, n: nat, lo: nat, hi: nat)
    requires Marked(bits, was, index, size, false) && FreeRun(bits, i, n) && index + size <= 8 * |bits|
    requires i < index + size && index < i + n
    requires lo == (if i < index then i else index) && hi == if i + n > index + size then i + n else index + size
    ensures FreeRun(bits, lo, hi - lo)
  {
    hide Used;
    forall k | lo <= k < hi
      ensures !Used(bits, k)
    {
    }
  }

  // ---- what the search leaves

  /** All that a search for `cells` cells may do to a page: where it was searched in vain the estimate is lowered to one
      less. */
  ghost predicate OnlySearched(v: View, w: View, cells: nat) {
    && w.bits == v.bits && w.runs == v.runs
    && (w.numFree == v.numFree || (w.numFree == cells - 1 && v.numFree >= cells && forall i: nat :: !FreeRun(v.bits, i, cells)))
  }

  /** That makes no page overlook a request that it did not overlook before. */
  lemma SearchOverlooksNothing(v: View, w: View, cells: nat)
    requires OnlySearched(v, w, cells) && cells >= 1
    ensures forall n: nat :: Overlooked(w, n) <==> Overlooked(v, n)
    ensures w.numFree != v.numFree ==> !Overlooks(w)
  {
    hide Used, FreeRun;
    if w.numFree != v.numFree {
      SearchedSees(v, cells);
      forall n: nat
        ensures !Overlooked(v, n)
      {
        NoLongerRun(v, n, cells);
      }
      assert w == v.(numFree := cells - 1);
    }
  }

  lemma NoLongerRun(v: View, n: nat, cells: nat)
    requires v.numFree >= cells && forall i: nat :: !FreeRun(v.bits, i, cells)
    ensures !Overlooked(v, n)
  {
    hide Used;
    if n >= cells {
      forall i: nat
        ensures !FreeRun(v.bits, i, n)
      {
        LongerRun(v.bits, i, n, cells);
      }
    }
  }

  lemma LongerRun(bits: seq<bv8>, i: nat, n: nat, cells: nat)
    requires cells <= n
    ensures FreeRun(bits, i, n) ==> FreeRun(bits, i, cells)
  {
    hide Used;
  }

  /** `x` is in front of `y`. */
  ghost predicate InFront(q: seq<nat>, x: nat, y: nat) {
    exists i, j :: 0 <= i < j < |q| && q[i] == x && q[j] == y
  }

  /** All of `p` is in `q`, in the same order. */
  ghost predicate SameOrder(p: seq<nat>, q: seq<nat>) {
    (forall b | b in p :: b in q) && forall x, y | InFront(p, x, y) :: InFront(q, x, y)
  }

  lemma {:induction false} WithoutInFront(q: seq<nat>, b: nat, x: nat, y: nat)
    requires InFront(Without(q, b), x, y)
    ensures InFront(q, x, y)
  {
    var w := Without(q, b);
    var i, j :| 0 <= i < j < |w| && w[i] == x && w[j] == y;
    if q[0] == b {
      assert w == q[1..];
      assert q[i + 1] == x && q[j + 1] == y;
    } else {
      assert w == [q[0]] + Without(q[1..], b);
      if i == 0 {
        assert y in Without(q[1..], b);
        var m :| 0 <= m < |q[1..]| && q[1..][m] == y;
        assert q[m + 1] == y;
      } else {
        assert Without(q[1..], b)[i - 1] == x && Without(q[1..], b)[j - 1] == y;
        WithoutInFront(q[1..], b, x, y);
        var m, n :| 0 <= m < n < |q[1..]| && q[1..][m] == x && q[1..][n] == y;
        assert q[m + 1] == x && q[n + 1] == y;
      }
    }
  }

  /** What the search of the first `k` pages does when none of them has room. */
  ghost predicate SearchedTo(s: State, t: State, k: nat, cells: nat)
    requires k <= |s.pages|
  {
    && t == s.(pages := t.pages, full := t.full, views := t.views) && t.views.Keys == s.views.Keys
    && (forall b | b in s.views :: OnlySearched(s.views[b], t.views[b], cells))
    && (forall m | 0 <= m < k :: s.pages[m] in s.views && t.views[s.pages[m]].numFree < cells)
    && (forall b | b in s.views && b !in s.pages[..k] :: t.views[b] == s.views[b])
    && SameOrder(t.pages, s.pages)
  }

  lemma {:induction false} SearchedIs(s: State, k: nat, cells: nat)
    requires Inv(s) && cells >= 1 && k <= |s.pages| && forall m | 0 <= m < k :: !HasRoom(s, s.pages[m], cells)
    ensures SearchedTo(s, Searched(s, s.pages, k, cells), k, cells)
  {
    hide Inv, HasRoom, SearchedTo, Placed, Searched;
    if k > 0 {
      SearchedIs(s, k - 1, cells);
      OnPages(s, k - 1);
      SearchedNext(s, k, cells);
      NextSearched(s, Searched(s, s.pages, k - 1, cells), k, cells);
    } else {
      NothingSearched(s, cells);
    }
  }

  lemma NothingSearched(s: State, cells: nat)
    requires cells >= 1
    ensures SearchedTo(s, Searched(s, s.pages, 0, cells), 0, cells)
  {
    hide FreeRun;
  }

  lemma SearchedNext(s: State, k: nat, cells: nat)
    requires 1 <= k <= |s.pages| && cells >= 1
    ensures var t, b := Searched(s, s.pages, k - 1, cells), s.pages[k - 1];
      Searched(s, s.pages, k, cells) == if b in t.views && t.views[b].numFree >= cells then Placed(t, b, t.views[b].(numFree := cells - 1), t.live) else t
  {
    hide Placed;
  }

  lemma NextSearched(s: State, t: State, k: nat, cells: nat)
    requires 1 <= k <= |s.pages| && cells >= 1 && SearchedTo(s, t, k - 1, cells) && !HasRoom(s, s.pages[k - 1], cells)
    requires s.pages[k - 1] in s.views && s.pages[k - 1] !in s.pages[..k - 1]
    ensures var b := s.pages[k - 1];
      SearchedTo(s, if b in t.views && t.views[b].numFree >= cells then Placed(t, b, t.views[b].(numFree := cells - 1), t.live) else t, k, cells)
  {
    hide FreeRun, SameOrder, Without;
    var b := s.pages[k - 1];
    assert s.pages[..k] == s.pages[..k - 1] + [b];
    OrderKept(t.pages, s.pages, b);
  }

  /** ... page by page. */
  lemma SearchedFairly(s: State, t: State, k: nat, cells: nat)
    requires k <= |s.pages| && cells >= 1 && SearchedTo(s, t, k, cells) && forall m | 0 <= m < k :: !HasRoom(s, s.pages[m], cells)
    ensures forall m | 0 <= m < k :: var b := s.pages[m];
      && b in s.views && b in t.views
      && t.views[b] == if s.views[b].numFree >= cells then s.views[b].(numFree := cells - 1) else s.views[b]
    ensures forall b | b in s.views && b !in s.pages[..k] :: b in t.views && t.views[b] == s.views[b]
    ensures forall b | b in s.views :: b in t.views && forall n: nat :: Overlooked(t.views[b], n) <==> Overlooked(s.views[b], n)
    ensures forall m | 0 <= m < k && s.views[s.pages[m]].numFree >= cells :: !Overlooks(t.views[s.pages[m]])
    ensures SameOrder(t.pages, s.pages)
  {
    hide FreeRun, SameOrder, Overlooked, Overlooks;
    forall b | b in s.views
      ensures forall n: nat :: Overlooked(t.views[b], n) <==> Overlooked(s.views[b], n)
      ensures t.views[b].numFree != s.views[b].numFree ==> !Overlooks(t.views[b])
    {
      SearchOverlooksNothing(s.views[b], t.views[b], cells);
    }
  }

  lemma OrderKept(p: seq<nat>, q: seq<nat>, b: nat)
    requires SameOrder(p, q)
    ensures SameOrder(Without(p, b), q)
  {
    forall x, y | InFront(Without(p, b), x, y)
      ensures InFront(q, x, y)
    {
      WithoutInFront(p, b, x, y);
    }
    hide InFront;
  }

  /** What a request for cells does to the estimates: other pages are at most searched and overlook nothing new, and the page
      the cells come from misses as many cells as before, or none if it is new. */
  ghost predicate FairlyTook(s: State, t: State, ptr: nat, cells: nat) {
    && (forall b | b in s.views && b != PageOf(ptr) ::
          b in t.views && OnlySearched(s.views[b], t.views[b], cells) && forall n: nat :: Overlooked(t.views[b], n) <==> Overlooked(s.views[b], n))
    && PageOf(ptr) in t.views && |t.views[PageOf(ptr)].bits| == BITMAP_SIZE
    && (PageOf(ptr) in s.views ==> |s.views[PageOf(ptr)].bits| == BITMAP_SIZE)
    && Missing(t.views[PageOf(ptr)], Reserved(t, PageOf(ptr))) == if PageOf(ptr) in s.views then Missing(s.views[PageOf(ptr)], Reserved(s, PageOf(ptr))) else 0
  }

  /** The pages stay in order, behind a new one. */
  ghost predicate Ordered(s: State, t: State) {
    forall x, y | InFront(t.pages, x, y) :: y in s.views && (x in s.views ==> InFront(s.pages, x, y))
  }

  lemma IsFair(s: State, t: State, k: nat, index: nat, size: nat, ptr: nat, address: nat, bits: seq<bv8>)
    requires Inv(s) && 1 <= size <= LARGE_CHUNK_MINIMUM && GotCells(s, t, k, index, size, ptr, address, bits)
    requires address % PAGE_SIZE == 0 && address !in s.views && JustPaddingSet(bits)
    ensures FairlyTook(s, t, ptr, CellsOf(size)) && Ordered(s, t)
  {
    hide *;
    CellsFit(size);
    ListedPages(s);
    var cells := CellsOf(size);
    GotFrom(s, t, k, index, size, ptr, address, bits);
    SearchedIs(s, k, cells);
    var before := Searched(s, s.pages, k, cells);
    AllSearched(s, before, k, cells);
    forall b | b in s.views
      ensures forall n: nat :: Overlooked(before.views[b], n) <==> Overlooked(s.views[b], n)
    {
      SearchOverlooksNothing(s.views[b], before.views[b], cells);
    }
    if k < |s.pages| {
      var b := s.pages[k];
      OnPages(s, k);
      TookFair(s, before, t, b, index, size);
    } else {
      FreshFair(s, before, t, address, size, bits);
    }
  }

  lemma AllSearched(s: State, t: State, k: nat, cells: nat)
    requires k <= |s.pages| && SearchedTo(s, t, k, cells)
    ensures t == s.(pages := t.pages, full := t.full, views := t.views) && t.views.Keys == s.views.Keys
    ensures (forall b | b in s.views :: OnlySearched(s.views[b], t.views[b], cells)) && SameOrder(t.pages, s.pages)
    ensures forall b | b in s.views && b !in s.pages[..k] :: t.views[b] == s.views[b]
  {
    hide OnlySearched, SameOrder;
  }

  lemma GotFrom(s: State, t: State, k: nat, index: nat, size: nat, ptr: nat, address: nat, bits: seq<bv8>)
    requires 1 <= size <= LARGE_CHUNK_MINIMUM && GotCells(s, t, k, index, size, ptr, address, bits)
    ensures 1 <= CellsOf(size) <= 384 && k <= |s.pages| && forall m | 0 <= m < k :: !HasRoom(s, s.pages[m], CellsOf(size))
    ensures var before := Searched(s, s.pages, k, CellsOf(size));
      if k < |s.pages| then
        && s.pages[k] in before.views && FreeRun(before.views[s.pages[k]].bits, index, CellsOf(size))
        && ptr == Address(s.pages[k], index) && Took(before, t, s.pages[k], index, size)
      else ptr == Address(address, 0) && Took(WithPage(before, address, View(bits, NUM_CELLS, map[])), t, address, 0, size)
  {
    CellsFit(size);
    hide CellsOf, Searched, HasRoom, FreeRun, Took, WithPage, Address;
  }

  lemma OnPages(s: State, k: nat)
    requires Inv(s) && k < |s.pages|
    ensures s.pages[k] in s.views && s.pages[k] !in s.pages[..k] && s.pages[k] % PAGE_SIZE == 0
    ensures PageOk(s.views[s.pages[k]], Reserved(s, s.pages[k]))
  {
    hide ChunksOk, ChunksApart, PagesApart, LiveBacked, RunsLive, ChunksLive, PageOk;
  }

  lemma TookFair(s: State, before: State, t: State, b: nat, index: nat, size: nat)
    requires 1 <= size && 1 <= CellsOf(size) && b in s.views && b % PAGE_SIZE == 0 && PageOk(s.views[b], Reserved(s, b))
    requires before == s.(pages := before.pages, full := before.full, views := before.views) && before.views.Keys == s.views.Keys
    requires forall c | c in s.views :: OnlySearched(s.views[c], before.views[c], CellsOf(size)) && forall n: nat :: Overlooked(before.views[c], n) <==> Overlooked(s.views[c], n)
    requires before.views[b] == s.views[b] && SameOrder(before.pages, s.pages) && forall c | c in s.pages :: c in s.views
    requires FreeRun(before.views[b].bits, index, CellsOf(size)) && Took(before, t, b, index, size)
    ensures FairlyTook(s, t, Address(b, index), CellsOf(size)) && Ordered(s, t)
  {
    hide CellsOf, FreeRun, Used, UsedCount, OnlySearched, Overlooked, Address, PageOf, RunsApart, RunsInside, BitsTell, Marked;
    var cells, v := CellsOf(size), s.views[b];
    RunIsNew(v, Reserved(s, b), index, cells);
    AddressSplits(b, index);
    RunFree(v.bits, index, cells);
    MissingKept(v, Reserved(s, b), index, cells, true, t.views[b].bits);
    OrderKept(before.pages, s.pages, b);
    hide Without, InFront;
    assert |v.bits| == BITMAP_SIZE;
    StillOrdered(s, t);
  }

  lemma RunFree(bits: seq<bv8>, index: nat, cells: nat)
    requires FreeRun(bits, index, cells)
    ensures index + cells <= 8 * |bits| && forall k | index <= k < index + cells :: Used(bits, k) != true
  {
    hide Used;
  }

  lemma StillOrdered(s: State, t: State)
    requires SameOrder(t.pages, s.pages) && forall c | c in s.pages :: c in s.views
    ensures Ordered(s, t)
  {
    forall x, y | InFront(t.pages, x, y)
      ensures y in s.views
    {
      var i, j :| 0 <= i < j < |t.pages| && t.pages[i] == x && t.pages[j] == y;
      assert t.pages[j] in t.pages;
    }
    hide InFront;
  }

  lemma FreshFair(s: State, before: State, t: State, address: nat, size: nat, bits: seq<bv8>)
    requires Inv(s) && 1 <= size && 1 <= CellsOf(size) <= 384 && address % PAGE_SIZE == 0 && address !in s.views && JustPaddingSet(bits)
    requires before == s.(pages := before.pages, full := before.full, views := before.views) && before.views.Keys == s.views.Keys
    requires forall c | c in s.views :: OnlySearched(s.views[c], before.views[c], CellsOf(size)) && forall n: nat :: Overlooked(before.views[c], n) <==> Overlooked(s.views[c], n)
    requires SameOrder(before.pages, s.pages)
    requires Took(WithPage(before, address, View(bits, NUM_CELLS, map[])), t, address, 0, size)
    ensures FairlyTook(s, t, Address(address, 0), CellsOf(size)) && Ordered(s, t)
  {
    ListedPages(s);
    hide Inv, CellsOf, FreeRun, Used, UsedCount, OnlySearched, Overlooked, Address, PageOf, Marked;
    var cells, v := CellsOf(size), View(bits, NUM_CELLS, map[]);
    AddressSplits(address, 0);
    MissingKept(v, 0, 0, cells, true, t.views[address].bits);
    CountAll(bits, 0, NUM_CELLS, false);
    hide JustPaddingSet;
    BehindNew(s, before, t, address);
  }

  lemma ListedPages(s: State)
    requires Inv(s)
    ensures s.home in s.views && forall c | c in s.pages :: c in s.views
  {
    hide ChunksOk, ChunksApart, PagesApart, LiveBacked, RunsLive, ChunksLive;
  }

  lemma BehindNew(s: State, before: State, t: State, address: nat)
    requires SameOrder(before.pages, s.pages) && address !in s.views && forall c | c in s.pages :: c in s.views
    requires t.pages == [address] + before.pages || t.pages == Without([address] + before.pages, address)
    ensures Ordered(s, t)
  {
    assert Without([address] + before.pages, address) == before.pages;
    forall x, y | InFront(t.pages, x, y)
      ensures y in s.views && (x in s.views ==> InFront(s.pages, x, y))
    {
      var i, j :| 0 <= i < j < |t.pages| && t.pages[i] == x && t.pages[j] == y;
      var off := |t.pages| - |before.pages|;
      assert before.pages[j - off] == y;
      if i >= off {
        assert before.pages[i - off] == x;
        assert InFront(before.pages, x, y);
      }
    }
  }

  /** What a release of cells does to the estimates: every page misses as many cells as before. */
  ghost predicate FairlyGave(s: State, t: State, ptr: nat) {
    && t.views.Keys == s.views.Keys && (forall b | b in s.views && b != PageOf(ptr) :: t.views[b] == s.views[b])
    && PageOf(ptr) in s.views && |s.views[PageOf(ptr)].bits| == |t.views[PageOf(ptr)].bits| == BITMAP_SIZE
    && Missing(t.views[PageOf(ptr)], Reserved(t, PageOf(ptr))) == Missing(s.views[PageOf(ptr)], Reserved(s, PageOf(ptr)))
    && t.pages == if s.views[PageOf(ptr)].numFree < THRESHOLD && t.views[PageOf(ptr)].numFree >= THRESHOLD then [PageOf(ptr)] + s.pages else s.pages
  }

  lemma FreedIsFair(s: State, t: State, ptr: nat)
    requires Inv(s) && ptr in s.live && s.live[ptr] <= LARGE_CHUNK_MINIMUM && Gave(s, t, ptr)
    ensures FairlyGave(s, t, ptr)
  {
    hide Inv, PageOf, IndexOf, CellsOf, Used, UsedCount, Without, Marked;
    RunOf(s, ptr);
    var b := PageOf(ptr);
    MissingKept(s.views[b], Reserved(s, b), IndexOf(ptr), CellsOf(s.live[ptr]), false, t.views[b].bits);
  }

  lemma RunOf(s: State, ptr: nat)
    requires Inv(s) && ptr in s.live && s.live[ptr] <= LARGE_CHUNK_MINIMUM
    ensures var b, i, n := PageOf(ptr), IndexOf(ptr), CellsOf(s.live[ptr]);
      && b in s.views && i >= Reserved(s, b) && i + n <= NUM_CELLS && |s.views[b].bits| == BITMAP_SIZE
      && forall k | i <= k < i + n :: Used(s.views[b].bits, k) != false
  {
    hide Inv, ListsOk, PagesOk, ChunksOk, ChunksApart, PagesApart, LiveOk, PageOk, CellsOf, PageOf, IndexOf, Address, Used;
    InvSplit(s);
    LiveIsBacked(s, ptr);
    var b := PageOf(ptr);
    PageFacts(s, b);
    RunIsUsed(s.views[b], Reserved(s, b), IndexOf(ptr));
  }

  lemma RunIsUsed(v: View, reserved: nat, i: nat)
    requires PageOk(v, reserved) && i in v.runs
    ensures i >= reserved && i + v.runs[i] <= NUM_CELLS && |v.bits| == BITMAP_SIZE
    ensures forall k | i <= k < i + v.runs[i] :: Used(v.bits, k)
  {
    hide Used, UsedCount;
    forall k | i <= k < i + v.runs[i]
      ensures Used(v.bits, k)
    {
      assert InRun(v.runs, k);
    }
  }

  lemma VacantIsNew(s: State, address: nat)
    requires Vacant(s, address, PAGE_SIZE)
    ensures address !in s.views
  {
  }

  // ---- three free cells, one in use, three free

  function Gapped(first: bv8): seq<bv8> {
    seq(BITMAP_SIZE, i => if i == 0 then first else 0xFF)
  }

  /** Cell 3 of a page is in use between three free cells on either side, all others are in use as well.  A
      request of four finds nothing and lowers the estimate to three; when cell 3 is released there are seven free cells
      in a row and the estimate is four, so that just requests of five to seven cells are overlooked. */
  lemma GapExample()
    ensures var full, gone := Gapped(0x88), Gapped(0x80);
      && PageOk(View(full, 6, map[3 := 1, 7 := 503]), 0) && (forall i: nat :: !FreeRun(full, i, 4))
      && !Overlooks(View(full, 3, map[3 := 1, 7 := 503])) && Marked(gone, full, 3, 1, false)
      && forall n: nat :: Overlooked(View(gone, 4, map[7 := 503]), n) <==> 5 <= n <= 7
  {
    hide Used, PageOk, Gapped;
    var full, gone := Gapped(0x88), Gapped(0x80);
    GapBits();
    NoFour(full);
    SearchedSees(View(full, 6, map[3 := 1, 7 := 503]), 4);
    GapPage(full);
    forall n: nat
      ensures Overlooked(View(gone, 4, map[7 := 503]), n) <==> 5 <= n <= 7
    {
      JustSeven(gone, n);
    }
  }

  lemma NoFour(full: seq<bv8>)
    requires |full| == BITMAP_SIZE && forall k | 0 <= k < 8 * BITMAP_SIZE :: Used(full, k) <==> k == 3 || k >= 7
    ensures forall i: nat :: !FreeRun(full, i, 4)
  {
    hide Used;
    forall i: nat
      ensures !FreeRun(full, i, 4)
    {
      var k := if i <= 3 then 3 else i + 3;
      if k < 8 * BITMAP_SIZE {
        assert Used(full, k);
      }
    }
  }

  lemma GapPage(full: seq<bv8>)
    requires |full| == BITMAP_SIZE && forall k | 0 <= k < 8 * BITMAP_SIZE :: Used(full, k) <==> k == 3 || k >= 7
    ensures PageOk(View(full, 6, map[3 := 1, 7 := 503]), 0)
  {
    hide Used;
    var runs: map<nat, nat> := map[3 := 1, 7 := 503];
    GapCount(full);
    forall k | 0 <= k < 8 * BITMAP_SIZE
      ensures Used(full, k) <==> k >= NUM_CELLS || k < 0 || InRun(runs, k)
    {
      assert 3 in runs && 7 in runs;
    }
  }

  lemma JustSeven(gone: seq<bv8>, n: nat)
    requires |gone| == BITMAP_SIZE && forall k | 0 <= k < 8 * BITMAP_SIZE :: Used(gone, k) <==> k >= 7
    ensures Overlooked(View(gone, 4, map[7 := 503]), n) <==> 5 <= n <= 7
  {
    hide Used;
    assert FreeRun(gone, 0, 7);
    if n <= 7 {
      PartIsFree(gone, 0, 7, 0, n);
    }
    forall i: nat
      ensures n > 7 ==> !FreeRun(gone, i, n)
    {
      if n > 7 && i + n <= 8 * BITMAP_SIZE {
        assert Used(gone, i + n - 1);
      }
    }
  }

  lemma GapBits()
    ensures |Gapped(0x88)| == |Gapped(0x80)| == BITMAP_SIZE
    ensures forall k | 0 <= k < 8 * BITMAP_SIZE :: Used(Gapped(0x88), k) <==> k == 3 || k >= 7
    ensures forall k | 0 <= k < 8 * BITMAP_SIZE :: Used(Gapped(0x80), k) <==> k >= 7
  {
    forall k | 0 <= k < 8 * BITMAP_SIZE
      ensures Used(Gapped(0x88), k) <==> k == 3 || k >= 7
      ensures Used(Gapped(0x80), k) <==> k >= 7
    {
      if k >= 8 {
        WholeBytes(k % 8);
      } else {
        FirstByte(k);
      }
    }
  }

  lemma FirstByte(k: nat)
    requires k < 8
    ensures Test(0x88, MaskAt(k)) <==> k == 3 || k == 7
    ensures Test(0x80, MaskAt(k)) <==> k == 7
  {
  }

  lemma GapCount(bits: seq<bv8>)
    requires |bits| == BITMAP_SIZE && forall k | 0 <= k < 8 * BITMAP_SIZE :: Used(bits, k) <==> k == 3 || k >= 7
    ensures UsedCount(bits, 0, NUM_CELLS) == 504
  {
    hide Used, UsedCount;
    CountSplit(bits, 0, 3, NUM_CELLS);
    CountSplit(bits, 3, 4, NUM_CELLS);
    CountSplit(bits, 4, 7, NUM_CELLS);
    CountAll(bits, 0, 3, false);
    CountAll(bits, 3, 4, true);
    CountAll(bits, 4, 7, false);
    CountAll(bits, 7, NUM_CELLS, true);
  }
}
