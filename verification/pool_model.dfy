/** What the memory of a pool looks like, told on values: pages by their addresses, each with its
    bitmap and its runs of cells in use, large chunks by the addresses of their trailers, and the
    live blocks.  The numbers are those of the 64-bit user-mode build. */
module PoolModel {
  import opened PoolBits

  const PAGE_SIZE: int := 65536
  const CELL_SIZE: int := 128
  /** Where the cells of a page start: behind its header and its bitmap, one cell each. */
  const CELLS_START: int := 256
  const BITMAP_SIZE: int := 128
  const NUM_CELLS: int := 510
  /** The cells of the pool structure at the start of the first page. */
  const POOL_CELLS: int := 2
  const THRESHOLD: int := 4
  const LARGE_CHUNK_MINIMUM: int := 49152
  const LARGE_CHUNK_SIZE: int := 40
  const LARGE_CHUNK_MAXIMUM: int := 0xFFFFFFFF - (40 + 65536)

  /** `NUM_CELLS(size)`, on 32 bits. */
  function CellsOf(size: nat): nat {
    ((size + 127) % 0x1_0000_0000 - (size + 127) % 0x1_0000_0000 % 128) / 128
  }

  /** The size of a large chunk, on 32 bits: the request and the trailer, up to whole pages. */
  function ChunkSize(size: nat): nat {
    var n := (size + 40 + 65535) % 0x1_0000_0000;
    n - n % 65536
  }

  lemma CellsFit(size: nat)
    requires 1 <= size <= LARGE_CHUNK_MINIMUM
    ensures 1 <= CellsOf(size) <= 384 && 128 * CellsOf(size) - 128 < size <= 128 * CellsOf(size)
  {
  }

  /** The padding never wraps, and the trailer at the end of the chunk starts behind the request. */
  lemma ChunkFits(size: nat)
    requires size < LARGE_CHUNK_MAXIMUM
    ensures ChunkSize(size) % 65536 == 0 && 65536 <= ChunkSize(size) < 0x1_0000_0000
    ensures size + 40 <= ChunkSize(size) < size + 40 + 65536
  {
  }

  // ---- one page

  datatype View = View(bits: seq<bv8>, numFree: nat, runs: map<nat, nat>)

  predicate InRun(runs: map<nat, nat>, k: nat) {
    exists i | i in runs :: i <= k < i + runs[i]
  }

  predicate RunsApart(runs: map<nat, nat>) {
    forall i, j | i in runs && j in runs && i < j :: i + runs[i] <= j
  }

  predicate RunsInside(runs: map<nat, nat>, reserved: nat) {
    forall i | i in runs :: reserved <= i && 1 <= runs[i] && i + runs[i] <= NUM_CELLS
  }

  /** A bit is set just for padding, the pool structure and live cells. */
  predicate BitsTell(bits: seq<bv8>, runs: map<nat, nat>, reserved: nat) {
    |bits| == BITMAP_SIZE && forall k | 0 <= k < 8 * BITMAP_SIZE :: Used(bits, k) <==> k >= NUM_CELLS || k < reserved || InRun(runs, k)
  }

  /** The estimate is never above the number of cells that no block uses. */
  predicate EstimateLow(v: View, reserved: nat) {
    |v.bits| == BITMAP_SIZE && v.numFree + UsedCount(v.bits, reserved, NUM_CELLS) <= NUM_CELLS
  }

  predicate PageOk(v: View, reserved: nat) {
    && RunsApart(v.runs) && RunsInside(v.runs, reserved)
    && BitsTell(v.bits, v.runs, reserved) && EstimateLow(v, reserved)
  }

  predicate JustPaddingSet(bits: seq<bv8>) {
    |bits| == BITMAP_SIZE && forall k | 0 <= k < 8 * BITMAP_SIZE :: Used(bits, k) <==> k >= NUM_CELLS
  }

  /** A new page. */
  lemma FreshPage(bits: seq<bv8>)
    requires JustPaddingSet(bits)
    ensures |bits| == BITMAP_SIZE && PageOk(View(bits, NUM_CELLS, map[]), 0)
  {
    hide Used;
    CountAll(bits, 0, NUM_CELLS, false);
  }

  /** ... and the first page, with the pool structure in it. */
  lemma FirstPage(bits: seq<bv8>, was: seq<bv8>)
    requires JustPaddingSet(was) && Marked(bits, was, 0, POOL_CELLS, true)
    ensures PageOk(View(bits, NUM_CELLS, map[]), POOL_CELLS)
  {
    hide Used;
    CountAll(bits, POOL_CELLS, NUM_CELLS, false);
  }

  lemma LowerEstimate(v: View, reserved: nat, numFree: nat)
    requires PageOk(v, reserved) && numFree <= v.numFree
    ensures PageOk(v.(numFree := numFree), reserved)
  {
    hide BitsTell, RunsApart, RunsInside, Used, UsedCount;
  }

  /** Free cells do not belong to a run, to the padding or to the pool structure. */
  lemma RunIsNew(v: View, reserved: nat, index: nat, size: nat)
    requires PageOk(v, reserved) && FreeRun(v.bits, index, size) && size >= 1
    ensures reserved <= index && index + size <= NUM_CELLS
    ensures forall i | i in v.runs :: i + v.runs[i] <= index || index + size <= i
  {
    hide Used, UsedCount, InRun;
    assert !Used(v.bits, index) && !Used(v.bits, index + size - 1);
    forall i | i in v.runs
      ensures i + v.runs[i] <= index || index + size <= i
    {
      NotInRun(v.runs, i, index);
      if index <= i < index + size {
        NotInRun(v.runs, i, i);
      }
    }
  }

  lemma NotInRun(runs: map<nat, nat>, i: nat, k: nat)
    requires i in runs && !InRun(runs, k)
    ensures !(i <= k < i + runs[i])
  {
  }

  lemma TakeRun(v: View, reserved: nat, index: nat, size: nat, bits: seq<bv8>)
    requires PageOk(v, reserved) && FreeRun(v.bits, index, size) && 1 <= size <= v.numFree
    requires Marked(bits, v.bits, index, size, true)
    ensures index !in v.runs && PageOk(View(bits, v.numFree - size, v.runs[index := size]), reserved)
  {
    hide Used, UsedCount;
    RunIsNew(v, reserved, index, size);
    var runs := v.runs[index := size];
    MarkedCount(bits, v.bits, index, size, true, reserved, NUM_CELLS);
    forall k | 0 <= k < 8 * BITMAP_SIZE
      ensures Used(bits, k) <==> k >= NUM_CELLS || k < reserved || InRun(runs, k)
    {
      RunAdded(v.runs, index, size, k);
    }
  }

  lemma RunAdded(runs: map<nat, nat>, index: nat, size: nat, k: nat)
    requires index !in runs
    ensures InRun(runs[index := size], k) <==> InRun(runs, k) || index <= k < index + size
  {
    var now := runs[index := size];
    if InRun(runs, k) {
      var i :| i in runs && i <= k < i + runs[i];
      assert i in now;
    }
    if index <= k < index + size {
      assert index in now;
    }
  }

  lemma RunTaken(runs: map<nat, nat>, index: nat, k: nat)
    requires index in runs && RunsApart(runs)
    ensures InRun(runs - {index}, k) <==> InRun(runs, k) && !(index <= k < index + runs[index])
  {
    var now := runs - {index};
    if InRun(runs, k) {
      var i :| i in runs && i <= k < i + runs[i];
      assert i != index ==> i in now;
    }
    if InRun(now, k) {
      var i :| i in now && i <= k < i + now[i];
      assert i in runs && index in runs;
    }
  }

  lemma ReleaseRun(v: View, reserved: nat, index: nat, bits: seq<bv8>)
    requires PageOk(v, reserved) && index in v.runs
    requires Marked(bits, v.bits, index, v.runs[index], false)
    ensures PageOk(View(bits, v.numFree + v.runs[index], v.runs - {index}), reserved)
  {
    hide Used, UsedCount;
    var size, runs := v.runs[index], v.runs - {index};
    forall k | index <= k < index + size
      ensures Used(v.bits, k)
    {
      assert InRun(v.runs, k);
    }
    MarkedCount(bits, v.bits, index, size, false, reserved, NUM_CELLS);
    forall k | 0 <= k < 8 * BITMAP_SIZE
      ensures Used(bits, k) <==> k >= NUM_CELLS || k < reserved || InRun(runs, k)
    {
      RunTaken(v.runs, index, k);
    }
  }

  // ---- the pool

  datatype Chunk = Chunk(ptr: nat, size: nat)

  /** Addresses of pages on the two lists, the pages, the trailers of large chunks on their list,
      the trailers, and the live blocks with the sizes that were asked for. */
  datatype State = State(home: nat, pages: seq<nat>, full: seq<nat>, views: map<nat, View>,
                         chunkList: seq<nat>, chunkAt: map<nat, Chunk>, live: map<nat, nat>)

  function Reserved(s: State, b: nat): nat {
    if b == s.home then POOL_CELLS else 0
  }

  predicate NoDup(q: seq<nat>) {
    forall i, j | 0 <= i < j < |q| :: q[i] != q[j]
  }

  /** Each page is on just one list: on `pages` with an estimate of at least the threshold. */
  predicate ListsOk(pages: seq<nat>, full: seq<nat>, views: map<nat, View>) {
    && NoDup(pages) && NoDup(full)
    && (forall b | b in pages :: b in views && b !in full && views[b].numFree >= THRESHOLD)
    && (forall b | b in full :: b in views && views[b].numFree < THRESHOLD)
    && (forall b | b in views :: b in pages || b in full)
  }

  predicate PagesOk(s: State) {
    && s.home in s.views
    && forall b | b in s.views :: b > 0 && b % PAGE_SIZE == 0 && PageOk(s.views[b], Reserved(s, b))
  }

  predicate ChunkOk(c: Chunk) {
    c.ptr > 0 && c.ptr % PAGE_SIZE == 0 && c.size % PAGE_SIZE == 0 && PAGE_SIZE <= c.size < 0x1_0000_0000
  }

  /** The trailer at the end of the last page. */
  function Trailer(c: Chunk): int {
    c.ptr + c.size - LARGE_CHUNK_SIZE
  }

  predicate ChunksOk(list: seq<nat>, chunkAt: map<nat, Chunk>) {
    && NoDup(list)
    && (forall t | t in list :: t in chunkAt)
    && (forall t | t in chunkAt :: t in list && ChunkOk(chunkAt[t]) && t == Trailer(chunkAt[t]))
  }

  predicate RangesApart(a: int, m: int, b: int, n: int) {
    a + m <= b || b + n <= a
  }

  predicate ChunksApart(chunkAt: map<nat, Chunk>) {
    forall t, u | t in chunkAt && u in chunkAt && t != u ::
      RangesApart(chunkAt[t].ptr, chunkAt[t].size, chunkAt[u].ptr, chunkAt[u].size)
  }

  predicate PagesApart(views: map<nat, View>, chunkAt: map<nat, Chunk>) {
    forall b, t | b in views && t in chunkAt :: RangesApart(b, PAGE_SIZE, chunkAt[t].ptr, chunkAt[t].size)
  }

  function Address(b: nat, i: nat): nat {
    b + CELLS_START + CELL_SIZE * i
  }

  /** The page of an address and the index of its cell, as `Pool_Free_Cells` finds them. */
  function PageOf(ptr: nat): nat {
    ptr - ptr % 65536
  }

  function IndexOf(ptr: nat): int {
    (ptr % 65536 - CELLS_START) / 128
  }

  lemma AddressSplits(b: nat, i: nat)
    requires b % PAGE_SIZE == 0 && i < NUM_CELLS
    ensures PageOf(Address(b, i)) == b && IndexOf(Address(b, i)) == i && Address(b, i) % 65536 != 0
  {
    assert Address(b, i) % 65536 == 256 + 128 * i;
  }

  predicate SmallBacked(views: map<nat, View>, ptr: nat, size: nat) {
    && 1 <= size <= LARGE_CHUNK_MINIMUM && PageOf(ptr) in views && IndexOf(ptr) >= 0
    && ptr == Address(PageOf(ptr), IndexOf(ptr))
    && IndexOf(ptr) in views[PageOf(ptr)].runs && views[PageOf(ptr)].runs[IndexOf(ptr)] == CellsOf(size)
  }

  predicate LargeBacked(chunkAt: map<nat, Chunk>, ptr: nat, size: nat) {
    && LARGE_CHUNK_MINIMUM < size < LARGE_CHUNK_MAXIMUM
    && ptr + ChunkSize(size) >= LARGE_CHUNK_SIZE
    && ptr + ChunkSize(size) - LARGE_CHUNK_SIZE in chunkAt
    && chunkAt[ptr + ChunkSize(size) - LARGE_CHUNK_SIZE] == Chunk(ptr, ChunkSize(size))
  }

  predicate Backed(s: State, ptr: nat, size: nat) {
    if size > LARGE_CHUNK_MINIMUM then LargeBacked(s.chunkAt, ptr, size) else SmallBacked(s.views, ptr, size)
  }

  predicate LiveBacked(s: State) {
    forall p | p in s.live :: Backed(s, p, s.live[p])
  }

  /** No run and no chunk without a live block. */
  predicate RunsLive(views: map<nat, View>, live: map<nat, nat>) {
    forall b, i | b in views && i in views[b].runs :: RunLive(views[b].runs[i], b, i, live)
  }

  predicate RunLive(cells: nat, b: nat, i: nat, live: map<nat, nat>) {
    && Address(b, i) in live
    && live[Address(b, i)] <= LARGE_CHUNK_MINIMUM && CellsOf(live[Address(b, i)]) == cells
  }

  predicate ChunksLive(chunkAt: map<nat, Chunk>, live: map<nat, nat>) {
    forall t | t in chunkAt :: ChunkLive(chunkAt[t], live)
  }

  predicate ChunkLive(c: Chunk, live: map<nat, nat>) {
    c.ptr in live && live[c.ptr] > LARGE_CHUNK_MINIMUM && ChunkSize(live[c.ptr]) == c.size
  }

  predicate Inv(s: State) {
    && ListsOk(s.pages, s.full, s.views)
    && PagesOk(s)
    && ChunksOk(s.chunkList, s.chunkAt) && ChunksApart(s.chunkAt) && PagesApart(s.views, s.chunkAt)
    && LiveBacked(s) && RunsLive(s.views, s.live) && ChunksLive(s.chunkAt, s.live)
  }

  // ---- what the invariant says about live blocks

  /** A block is on a page boundary just when it is a large chunk, which is the test
      `Pool_Free` makes. */
  lemma AlignedIsLarge(s: State, ptr: nat)
    requires Inv(s) && ptr in s.live
    ensures ptr > 0 && (ptr % 65536 == 0 <==> s.live[ptr] > LARGE_CHUNK_MINIMUM)
  {
    hide ListsOk, PageOk, ChunksApart, PagesApart, RunsLive, ChunksLive, CellsOf, ChunkSize;
    assert Backed(s, ptr, s.live[ptr]);
    if s.live[ptr] <= LARGE_CHUNK_MINIMUM {
      SmallInside(s, ptr);
    }
  }

  /** A small block lies in the cells of its page, behind the pool structure on the first page. */
  lemma SmallInside(s: State, ptr: nat)
    requires PagesOk(s) && ptr in s.live && SmallBacked(s.views, ptr, s.live[ptr])
    ensures PageOf(ptr) in s.views && PageOf(ptr) % 65536 == 0 && ptr % 65536 != 0
    ensures PageOf(ptr) + CELLS_START + CELL_SIZE * Reserved(s, PageOf(ptr)) <= ptr
    ensures ptr + s.live[ptr] <= ptr + CELL_SIZE * CellsOf(s.live[ptr]) <= PageOf(ptr) + PAGE_SIZE
  {
    var b, i := PageOf(ptr), IndexOf(ptr);
    assert PageOk(s.views[b], Reserved(s, b));
    InsideRuns(s.views[b], Reserved(s, b), i);
    hide PageOk, PagesOk;
    CellsFit(s.live[ptr]);
    AddressSplits(b, i);
  }

  lemma InsideRuns(v: View, reserved: nat, i: nat)
    requires PageOk(v, reserved) && i in v.runs
    ensures reserved <= i && 1 <= v.runs[i] && i + v.runs[i] <= NUM_CELLS
  {
  }

  /** A large block ends before the trailer of its chunk. */
  lemma LargeInside(s: State, ptr: nat)
    requires ptr in s.live && LargeBacked(s.chunkAt, ptr, s.live[ptr])
    ensures ptr + s.live[ptr] <= Trailer(Chunk(ptr, ChunkSize(s.live[ptr])))
  {
    ChunkFits(s.live[ptr]);
  }

  /** Live blocks do not overlap. */
  lemma LiveApart(s: State, p: nat, q: nat)
    requires Inv(s) && p in s.live && q in s.live && p != q
    ensures RangesApart(p, s.live[p], q, s.live[q])
  {
    hide ListsOk, PageOk, RunsLive, ChunksLive, CellsOf, ChunkSize, PageOf, IndexOf;
    assert Backed(s, p, s.live[p]) && Backed(s, q, s.live[q]);
    if s.live[p] > LARGE_CHUNK_MINIMUM {
      LargeInside(s, p);
      if s.live[q] > LARGE_CHUNK_MINIMUM {
        LargeInside(s, q);
        LargeApart(s, p, q);
      } else {
        SmallInside(s, q);
        MixedApart(s, q, p);
      }
    } else {
      SmallInside(s, p);
      if s.live[q] > LARGE_CHUNK_MINIMUM {
        LargeInside(s, q);
        MixedApart(s, p, q);
      } else {
        SmallInside(s, q);
        SmallApart(s, p, q);
      }
    }
  }

  lemma LargeApart(s: State, p: nat, q: nat)
    requires ChunksApart(s.chunkAt) && p in s.live && q in s.live && p != q
    requires LargeBacked(s.chunkAt, p, s.live[p]) && LargeBacked(s.chunkAt, q, s.live[q])
    ensures RangesApart(p, ChunkSize(s.live[p]), q, ChunkSize(s.live[q]))
  {
    hide ChunkSize;
    var t, u := p + ChunkSize(s.live[p]) - LARGE_CHUNK_SIZE, q + ChunkSize(s.live[q]) - LARGE_CHUNK_SIZE;
    assert s.chunkAt[t].ptr == p && s.chunkAt[u].ptr == q;
  }

  lemma MixedApart(s: State, p: nat, q: nat)
    requires PagesOk(s) && PagesApart(s.views, s.chunkAt) && p in s.live && q in s.live
    requires SmallBacked(s.views, p, s.live[p]) && LargeBacked(s.chunkAt, q, s.live[q])
    ensures RangesApart(PageOf(p), PAGE_SIZE, q, ChunkSize(s.live[q]))
  {
    hide PageOk, ChunkSize, CellsOf, PagesOk;
  }

  lemma SmallApart(s: State, p: nat, q: nat)
    requires PagesOk(s) && p in s.live && q in s.live && p != q
    requires SmallBacked(s.views, p, s.live[p]) && SmallBacked(s.views, q, s.live[q])
    ensures RangesApart(p, s.live[p], q, s.live[q])
  {
    hide CellsOf;
    SmallInside(s, p);
    SmallInside(s, q);
    var b, c, i, j := PageOf(p), PageOf(q), IndexOf(p), IndexOf(q);
    if b == c {
      assert PageOk(s.views[b], Reserved(s, b));
      ApartRuns(s.views[b], Reserved(s, b), i, j);
      CellsFit(s.live[p]);
      CellsFit(s.live[q]);
      hide PageOk, PagesOk, PageOf, IndexOf;
    } else {
      PagesOfApart(b, c);
    }
  }

  lemma ApartRuns(v: View, reserved: nat, i: nat, j: nat)
    requires PageOk(v, reserved) && i in v.runs && j in v.runs && i != j
    ensures i + v.runs[i] <= j || j + v.runs[j] <= i
  {
  }

  lemma PagesOfApart(b: nat, c: nat)
    requires b % 65536 == 0 && c % 65536 == 0 && b != c
    ensures b + 65536 <= c || c + 65536 <= b
  {
  }

  // ---- steps

  /** A list without one element, as unlinking it leaves it. */
  function Without(q: seq<nat>, b: nat): (r: seq<nat>)
    ensures forall x | x in r :: x in q
    ensures forall x | x in q && x != b :: x in r
  {
    if q == [] then []
    else if q[0] == b then q[1..]
    else
      assert q == [q[0]] + q[1..];
      [q[0]] + Without(q[1..], b)
  }

  lemma {:induction false} WithoutIs(q: seq<nat>, i: nat)
    requires i < |q| && NoDup(q)
    ensures Without(q, q[i]) == q[..i] + q[i + 1..]
  {
    if i > 0 {
      WithoutIs(q[1..], i - 1);
      assert q[1..][..i - 1] == q[1..i] && q[1..][i..] == q[i + 1..];
      assert q[..i] == [q[0]] + q[1..i];
      assert q[0] != q[i];
    }
  }

  lemma {:induction false} WithoutNoDup(q: seq<nat>, b: nat)
    requires NoDup(q)
    ensures NoDup(Without(q, b)) && b !in Without(q, b)
  {
    if q != [] && q[0] != b {
      WithoutNoDup(q[1..], b);
      assert q[0] !in q[1..];
      hide Without;
      PrependNoDup(Without(q[1..], b), q[0]);
    } else if q != [] {
      assert q[0] !in q[1..];
    }
  }

  lemma PrependNoDup(q: seq<nat>, b: nat)
    requires NoDup(q) && b !in q
    ensures NoDup([b] + q)
  {
  }

  /** A page on `pages` changes; below the threshold it goes to the list of full pages. */
  function Placed(s: State, b: nat, v: View, live: map<nat, nat>): State {
    var t := s.(views := s.views[b := v], live := live);
    if v.numFree < THRESHOLD then t.(pages := Without(s.pages, b), full := [b] + s.full) else t
  }

  lemma ListsPlaced(s: State, b: nat, v: View, live: map<nat, nat>)
    requires ListsOk(s.pages, s.full, s.views) && b in s.pages
    ensures var t := Placed(s, b, v, live); ListsOk(t.pages, t.full, t.views)
  {
    if v.numFree < THRESHOLD {
      ListsDemoted(s, b, v);
    } else {
      hide NoDup;
    }
  }

  lemma ListsDemoted(s: State, b: nat, v: View)
    requires ListsOk(s.pages, s.full, s.views) && b in s.pages && v.numFree < THRESHOLD
    ensures ListsOk(Without(s.pages, b), [b] + s.full, s.views[b := v])
  {
    WithoutNoDup(s.pages, b);
    assert b in s.views && b !in s.full;
    PrependNoDup(s.full, b);
    hide Without, NoDup;
  }

  /** A page gets cells back; at the threshold it returns from the list of full pages. */
  function Returned(s: State, b: nat, v: View, live: map<nat, nat>): State
    requires b in s.views
  {
    var t := s.(views := s.views[b := v], live := live);
    if s.views[b].numFree < THRESHOLD && v.numFree >= THRESHOLD then t.(full := Without(s.full, b), pages := [b] + s.pages) else t
  }

  lemma ListsReturned(s: State, b: nat, v: View, live: map<nat, nat>)
    requires ListsOk(s.pages, s.full, s.views) && b in s.views && v.numFree >= s.views[b].numFree
    ensures var t := Returned(s, b, v, live); ListsOk(t.pages, t.full, t.views)
  {
    if s.views[b].numFree < THRESHOLD && v.numFree >= THRESHOLD {
      ListsSwapped(s, b, v);
    } else {
      hide NoDup;
    }
  }

  lemma ListsSwapped(s: State, b: nat, v: View)
    requires ListsOk(s.pages, s.full, s.views) && b in s.views && s.views[b].numFree < THRESHOLD <= v.numFree
    ensures ListsOk([b] + s.pages, Without(s.full, b), s.views[b := v])
  {
    WithoutNoDup(s.full, b);
    assert b !in s.pages;
    PrependNoDup(s.pages, b);
    hide Without, NoDup;
  }

  lemma PagesChanged(s: State, t: State, b: nat, v: View)
    requires PagesOk(s) && b in s.views && t.views == s.views[b := v] && t.home == s.home
    requires PageOk(v, Reserved(s, b))
    ensures PagesOk(t)
    ensures PagesApart(s.views, s.chunkAt) && t.chunkAt == s.chunkAt ==> PagesApart(t.views, t.chunkAt)
  {
    hide PageOk;
  }

  predicate LiveOk(s: State) {
    LiveBacked(s) && RunsLive(s.views, s.live) && ChunksLive(s.chunkAt, s.live)
  }

  lemma LiveSame(s: State, t: State, b: nat, v: View)
    requires LiveOk(s) && b in s.views && t.views == s.views[b := v] && v.runs == s.views[b].runs
    requires t.live == s.live && t.chunkAt == s.chunkAt
    ensures LiveOk(t)
  {
    hide RunLive, ChunkLive, LargeBacked, CellsOf, PageOf, IndexOf, Address;
    forall p | p in t.live
      ensures Backed(t, p, t.live[p])
    {
      assert Backed(s, p, s.live[p]);
    }
    assert RunsLive(t.views, t.live) by {
      hide Backed, LiveBacked;
    }
  }

  /** A new block in a page: its address was not in use. */
  lemma LiveTaken(s: State, t: State, b: nat, v: View, index: nat, size: nat)
    requires LiveOk(s) && b in s.views && t.views == s.views[b := v] && t.chunkAt == s.chunkAt
    requires b % PAGE_SIZE == 0 && index < NUM_CELLS && 1 <= size <= LARGE_CHUNK_MINIMUM
    requires index !in s.views[b].runs && v.runs == s.views[b].runs[index := CellsOf(size)]
    requires t.live == s.live[Address(b, index) := size] && ChunksOk(s.chunkList, s.chunkAt)
    ensures Address(b, index) !in s.live && LiveOk(t)
  {
    hide CellsOf, LiveBacked, RunsLive, ChunksLive, ChunksOk;
    var ptr := Address(b, index);
    NotInUse(s, b, index);
    BackedTaken(s, t, b, v, index, size);
    RunsTaken(s, t, b, v, index, size);
    ChunksStay(s.chunkAt, s.live, ptr, size);
  }

  lemma NotInUse(s: State, b: nat, index: nat)
    requires LiveBacked(s) && ChunksOk(s.chunkList, s.chunkAt) && b in s.views
    requires b % PAGE_SIZE == 0 && index < NUM_CELLS && index !in s.views[b].runs
    ensures Address(b, index) !in s.live
  {
    hide CellsOf, ChunkSize, ChunksOk;
    AddressSplits(b, index);
    var ptr := Address(b, index);
    hide PageOf, IndexOf, Address;
    if ptr in s.live {
      assert Backed(s, ptr, s.live[ptr]);
      NotLarge(s, ptr);
    }
  }

  lemma BackedTaken(s: State, t: State, b: nat, v: View, index: nat, size: nat)
    requires LiveBacked(s) && b in s.views && t.views == s.views[b := v] && t.chunkAt == s.chunkAt
    requires b % PAGE_SIZE == 0 && index < NUM_CELLS && 1 <= size <= LARGE_CHUNK_MINIMUM
    requires index !in s.views[b].runs && v.runs == s.views[b].runs[index := CellsOf(size)]
    requires t.live == s.live[Address(b, index) := size]
    ensures LiveBacked(t)
  {
    hide CellsOf, ChunkSize;
    AddressSplits(b, index);
    hide PageOf, IndexOf, Address;
    forall p | p in t.live
      ensures Backed(t, p, t.live[p])
    {
      if p != Address(b, index) {
        assert Backed(s, p, s.live[p]);
      }
    }
  }

  lemma NotLarge(s: State, ptr: nat)
    requires ChunksOk(s.chunkList, s.chunkAt) && ptr % 65536 != 0 && ptr in s.live
    ensures !LargeBacked(s.chunkAt, ptr, s.live[ptr])
  {
    hide NoDup, ChunkSize;
  }

  lemma RunsTaken(s: State, t: State, b: nat, v: View, index: nat, size: nat)
    requires RunsLive(s.views, s.live) && b in s.views && t.views == s.views[b := v]
    requires index !in s.views[b].runs && v.runs == s.views[b].runs[index := CellsOf(size)]
    requires Address(b, index) !in s.live && t.live == s.live[Address(b, index) := size] && size <= LARGE_CHUNK_MINIMUM
    ensures RunsLive(t.views, t.live)
  {
    hide CellsOf, Address;
    forall c, i | c in t.views && i in t.views[c].runs
      ensures RunLive(t.views[c].runs[i], c, i, t.live)
    {
      if c == b && i == index {
        assert t.views[c].runs[i] == CellsOf(size);
      } else {
        assert c in s.views && i in s.views[c].runs && RunLive(s.views[c].runs[i], c, i, s.live);
      }
    }
  }

  lemma ChunksStay(chunkAt: map<nat, Chunk>, live: map<nat, nat>, ptr: nat, size: nat)
    requires ChunksLive(chunkAt, live) && ptr !in live
    ensures ChunksLive(chunkAt, live[ptr := size])
  {
    hide ChunkSize;
    forall t | t in chunkAt
      ensures ChunkLive(chunkAt[t], live[ptr := size])
    {
      assert ChunkLive(chunkAt[t], live);
    }
  }

  /** A block of a page goes. */
  lemma LiveReleased(s: State, t: State, b: nat, v: View, ptr: nat)
    requires LiveOk(s) && PagesOk(s) && ChunksOk(s.chunkList, s.chunkAt) && ptr in s.live && s.live[ptr] <= LARGE_CHUNK_MINIMUM
    requires b == PageOf(ptr) && b in s.views && t.views == s.views[b := v] && t.chunkAt == s.chunkAt
    requires IndexOf(ptr) >= 0 && v.runs == s.views[b].runs - {IndexOf(ptr)}
    requires t.live == s.live - {ptr}
    ensures LiveOk(t)
  {
    hide LiveBacked, RunsLive, ChunksLive, ChunksOk, PagesOk, PageOf, IndexOf;
    BackedReleased(s, t, b, v, ptr);
    RunsReleased(s, t, b, v, ptr);
    ChunksKeptLive(s, t, ptr);
  }

  lemma BackedReleased(s: State, t: State, b: nat, v: View, ptr: nat)
    requires LiveBacked(s) && ptr in s.live && s.live[ptr] <= LARGE_CHUNK_MINIMUM
    requires b == PageOf(ptr) && b in s.views && t.views == s.views[b := v] && t.chunkAt == s.chunkAt
    requires IndexOf(ptr) >= 0 && v.runs == s.views[b].runs - {IndexOf(ptr)}
    requires t.live == s.live - {ptr}
    ensures LiveBacked(t)
  {
    hide CellsOf, ChunkSize, PageOf, IndexOf;
    assert Backed(s, ptr, s.live[ptr]);
    forall p | p in t.live
      ensures Backed(t, p, t.live[p])
    {
      assert Backed(s, p, s.live[p]);
    }
  }

  lemma RunsReleased(s: State, t: State, b: nat, v: View, ptr: nat)
    requires LiveBacked(s) && PagesOk(s) && RunsLive(s.views, s.live) && ptr in s.live && s.live[ptr] <= LARGE_CHUNK_MINIMUM
    requires b == PageOf(ptr) && b in s.views && t.views == s.views[b := v]
    requires IndexOf(ptr) >= 0 && v.runs == s.views[b].runs - {IndexOf(ptr)} && t.live == s.live - {ptr}
    ensures RunsLive(t.views, t.live)
  {
    hide CellsOf, ChunkSize, PageOf, IndexOf, Address, LiveBacked, PagesOk;
    forall c, i | c in t.views && i in t.views[c].runs
      ensures RunLive(t.views[c].runs[i], c, i, t.live)
    {
      assert c in s.views && i in s.views[c].runs && RunLive(s.views[c].runs[i], c, i, s.live);
      RunAddress(s, c, i);
    }
  }

  lemma RunAddress(s: State, c: nat, i: nat)
    requires PagesOk(s) && c in s.views && i in s.views[c].runs
    ensures PageOf(Address(c, i)) == c && IndexOf(Address(c, i)) == i
  {
    InsideRuns(s.views[c], Reserved(s, c), i);
    AddressSplits(c, i);
  }

  lemma ChunksKeptLive(s: State, t: State, ptr: nat)
    requires ChunksLive(s.chunkAt, s.live) && t.chunkAt == s.chunkAt && t.live == s.live - {ptr}
    requires ptr in s.live && s.live[ptr] <= LARGE_CHUNK_MINIMUM
    ensures ChunksLive(t.chunkAt, t.live)
  {
    hide ChunkSize;
    forall u | u in t.chunkAt
      ensures ChunkLive(t.chunkAt[u], t.live)
    {
      assert ChunkLive(s.chunkAt[u], s.live);
    }
  }

  // ---- the steps keep the invariant

  lemma InvSplit(s: State)
    ensures Inv(s) <==>
      && ListsOk(s.pages, s.full, s.views) && PagesOk(s)
      && ChunksOk(s.chunkList, s.chunkAt) && ChunksApart(s.chunkAt) && PagesApart(s.views, s.chunkAt)
      && LiveOk(s)
  {
    hide ListsOk, PagesOk, ChunksOk, ChunksApart, PagesApart, LiveBacked, RunsLive, ChunksLive;
  }

  lemma PageFacts(s: State, b: nat)
    requires PagesOk(s) && b in s.views
    ensures b > 0 && b % PAGE_SIZE == 0 && PageOk(s.views[b], Reserved(s, b))
  {
  }

  lemma ListFacts(s: State, b: nat)
    requires ListsOk(s.pages, s.full, s.views) && b in s.pages
    ensures b in s.views && s.views[b].numFree >= THRESHOLD
  {
  }

  /** `Pool_Get_Cells` found no room in a page and lowers its estimate. */
  lemma InvLowered(s: State, b: nat, n: nat)
    requires Inv(s) && b in s.pages
    ensures b in s.views
    ensures n <= s.views[b].numFree ==> Inv(Placed(s, b, s.views[b].(numFree := n), s.live))
  {
    hide Inv, ListsOk, PagesOk, ChunksOk, ChunksApart, PagesApart, LiveOk, PageOk, Without;
    InvSplit(s);
    ListFacts(s, b);
    PageFacts(s, b);
    if n <= s.views[b].numFree {
      var v := s.views[b].(numFree := n);
      var t := Placed(s, b, v, s.live);
      LowerEstimate(s.views[b], Reserved(s, b), n);
      ListsPlaced(s, b, v, s.live);
      PagesChanged(s, t, b, v);
      LiveSame(s, t, b, v);
      InvSplit(t);
    }
  }

  /** `Pool_Get_Cells` takes cells of a page for a block of `size` bytes. */
  lemma InvTaken(s: State, b: nat, index: nat, size: nat, bits: seq<bv8>)
    requires Inv(s) && b in s.pages && b in s.views && 1 <= size <= LARGE_CHUNK_MINIMUM
    requires FreeRun(s.views[b].bits, index, CellsOf(size)) && CellsOf(size) <= s.views[b].numFree
    requires Marked(bits, s.views[b].bits, index, CellsOf(size), true)
    ensures Address(b, index) !in s.live && index + CellsOf(size) <= NUM_CELLS
    ensures var v := View(bits, s.views[b].numFree - CellsOf(size), s.views[b].runs[index := CellsOf(size)]);
      Inv(Placed(s, b, v, s.live[Address(b, index) := size]))
  {
    hide Inv, ListsOk, PagesOk, ChunksOk, ChunksApart, PagesApart, LiveOk, PageOk, Without, CellsOf, FreeRun, Marked, Address;
    InvSplit(s);
    PageFacts(s, b);
    CellsFit(size);
    var v := View(bits, s.views[b].numFree - CellsOf(size), s.views[b].runs[index := CellsOf(size)]);
    var live := s.live[Address(b, index) := size];
    var t := Placed(s, b, v, live);
    RunIsNew(s.views[b], Reserved(s, b), index, CellsOf(size));
    TakeRun(s.views[b], Reserved(s, b), index, CellsOf(size), bits);
    ListsPlaced(s, b, v, live);
    PagesChanged(s, t, b, v);
    LiveTaken(s, t, b, v, index, size);
    InvSplit(t);
  }

  /** `Pool_Alloc_Page` adds a page. */
  function WithPage(s: State, b: nat, v: View): State {
    s.(views := s.views[b := v], pages := [b] + s.pages)
  }

  lemma InvPage(s: State, b: nat, v: View)
    requires Inv(s) && b > 0 && b % PAGE_SIZE == 0 && b !in s.views
    requires forall t | t in s.chunkAt :: RangesApart(b, PAGE_SIZE, s.chunkAt[t].ptr, s.chunkAt[t].size)
    requires PageOk(v, 0) && v.numFree == NUM_CELLS && v.runs == map[]
    ensures Inv(WithPage(s, b, v))
  {
    hide ListsOk, PagesOk, ChunksOk, ChunksApart, PagesApart, LiveBacked, RunsLive, ChunksLive, PageOk;
    ListsWithPage(s, b, v);
    PagesWithPage(s, b, v);
    LiveWithPage(s, b, v);
  }

  lemma PagesWithPage(s: State, b: nat, v: View)
    requires PagesOk(s) && b > 0 && b % PAGE_SIZE == 0 && b !in s.views && PageOk(v, 0) && PagesApart(s.views, s.chunkAt)
    requires forall t | t in s.chunkAt :: RangesApart(b, PAGE_SIZE, s.chunkAt[t].ptr, s.chunkAt[t].size)
    ensures PagesOk(WithPage(s, b, v)) && PagesApart(s.views[b := v], s.chunkAt)
  {
    assert Reserved(s, b) == 0;
    hide PageOk;
  }

  lemma LiveWithPage(s: State, b: nat, v: View)
    requires LiveBacked(s) && RunsLive(s.views, s.live) && b !in s.views && v.runs == map[]
    ensures LiveBacked(WithPage(s, b, v)) && RunsLive(s.views[b := v], s.live)
  {
    hide LargeBacked, CellsOf, PageOf, IndexOf, Address, RunLive;
    var t := WithPage(s, b, v);
    forall p | p in t.live
      ensures Backed(t, p, t.live[p])
    {
      assert Backed(s, p, s.live[p]);
    }
  }

  lemma ListsWithPage(s: State, b: nat, v: View)
    requires ListsOk(s.pages, s.full, s.views) && b !in s.views && v.numFree >= THRESHOLD
    ensures ListsOk([b] + s.pages, s.full, s.views[b := v])
  {
    assert b !in s.pages && b !in s.full;
    PrependNoDup(s.pages, b);
    hide NoDup;
  }

  /** `Pool_Free_Cells` gives the cells of a block back. */
  lemma InvReturned(s: State, ptr: nat, bits: seq<bv8>)
    requires Inv(s) && ptr in s.live && s.live[ptr] <= LARGE_CHUNK_MINIMUM
    ensures SmallBacked(s.views, ptr, s.live[ptr])
    ensures var b, i, n := PageOf(ptr), IndexOf(ptr), CellsOf(s.live[ptr]);
      && s.views[b].numFree + n <= NUM_CELLS && |s.views[b].bits| == BITMAP_SIZE && i + n <= NUM_CELLS
      && (Marked(bits, s.views[b].bits, i, n, false) ==>
         Inv(Returned(s, b, View(bits, s.views[b].numFree + n, s.views[b].runs - {i}), s.live - {ptr})))
  {
    hide Inv, ListsOk, PagesOk, ChunksOk, ChunksApart, PagesApart, LiveBacked, RunsLive, ChunksLive, PageOk, Without, CellsOf, Marked, PageOf, IndexOf, Address;
    InvSplit(s);
    LiveIsBacked(s, ptr);
    var b, i, n := PageOf(ptr), IndexOf(ptr), CellsOf(s.live[ptr]);
    PageFacts(s, b);
    InsideRuns(s.views[b], Reserved(s, b), i);
    RoomForRun(s.views[b], Reserved(s, b), i);
    if Marked(bits, s.views[b].bits, i, n, false) {
      var v, live := View(bits, s.views[b].numFree + n, s.views[b].runs - {i}), s.live - {ptr};
      var t := Returned(s, b, v, live);
      ReleaseRun(s.views[b], Reserved(s, b), i, bits);
      ListsReturned(s, b, v, live);
      PagesChanged(s, t, b, v);
      LiveReleased(s, t, b, v, ptr);
      InvSplit(t);
    }
  }

  lemma LiveIsBacked(s: State, ptr: nat)
    requires LiveOk(s) && ptr in s.live
    ensures if s.live[ptr] > LARGE_CHUNK_MINIMUM then LargeBacked(s.chunkAt, ptr, s.live[ptr]) else SmallBacked(s.views, ptr, s.live[ptr])
  {
    hide LargeBacked, SmallBacked, RunsLive, ChunksLive;
    assert Backed(s, ptr, s.live[ptr]);
  }

  /** The estimate has room for the cells of a run: the 16-bit field does not wrap. */
  lemma RoomForRun(v: View, reserved: nat, i: nat)
    requires PageOk(v, reserved) && i in v.runs
    ensures |v.bits| == BITMAP_SIZE && v.numFree + v.runs[i] <= NUM_CELLS
  {
    hide Used, UsedCount;
    var n := v.runs[i];
    forall k | i <= k < i + n
      ensures Used(v.bits, k)
    {
      assert InRun(v.runs, k);
    }
    CountSplit(v.bits, reserved, i, NUM_CELLS);
    CountSplit(v.bits, i, i + n, NUM_CELLS);
    CountAll(v.bits, i, i + n, true);
  }

  // ---- large chunks

  function WithChunk(s: State, c: Chunk, size: nat): State
    requires Trailer(c) >= 0
  {
    s.(chunkList := [Trailer(c)] + s.chunkList, chunkAt := s.chunkAt[Trailer(c) := c], live := s.live[c.ptr := size])
  }

  lemma InvChunk(s: State, ptr: nat, size: nat)
    requires Inv(s) && LARGE_CHUNK_MINIMUM < size < LARGE_CHUNK_MAXIMUM && ptr > 0 && ptr % PAGE_SIZE == 0
    requires forall b | b in s.views :: RangesApart(b, PAGE_SIZE, ptr, ChunkSize(size))
    requires forall t | t in s.chunkAt :: RangesApart(s.chunkAt[t].ptr, s.chunkAt[t].size, ptr, ChunkSize(size))
    ensures ptr !in s.live && ChunkOk(Chunk(ptr, ChunkSize(size)))
    ensures Inv(WithChunk(s, Chunk(ptr, ChunkSize(size)), size))
  {
    hide ListsOk, PagesOk, ChunksOk, ChunksApart, PagesApart, LiveBacked, RunsLive, ChunksLive, ChunkSize;
    ChunkFits(size);
    var c := Chunk(ptr, ChunkSize(size));
    var t := WithChunk(s, c, size);
    ChunkNew(s, c);
    ChunksAdded(s, c);
    assert PagesOk(t) by { PagesStay(s, t); }
    PagesApartAdded(s, c);
    LiveChunkAdded(s, t, c, size);
  }

  /** The address of a new region is no live block, and its trailer no trailer. */
  lemma ChunkNew(s: State, c: Chunk)
    requires LiveBacked(s) && PagesOk(s) && ChunksOk(s.chunkList, s.chunkAt) && ChunkOk(c)
    requires forall t | t in s.chunkAt :: RangesApart(s.chunkAt[t].ptr, s.chunkAt[t].size, c.ptr, c.size)
    ensures c.ptr !in s.live && Trailer(c) !in s.chunkAt
  {
    hide PageOk, NoDup, ChunkSize, CellsOf;
    if c.ptr in s.live {
      assert Backed(s, c.ptr, s.live[c.ptr]);
      if s.live[c.ptr] <= LARGE_CHUNK_MINIMUM {
        SmallInside(s, c.ptr);
      }
    }
  }

  lemma ChunksAdded(s: State, c: Chunk)
    requires ChunksOk(s.chunkList, s.chunkAt) && ChunksApart(s.chunkAt) && ChunkOk(c) && Trailer(c) !in s.chunkAt
    requires forall t | t in s.chunkAt :: RangesApart(s.chunkAt[t].ptr, s.chunkAt[t].size, c.ptr, c.size)
    ensures ChunksOk([Trailer(c)] + s.chunkList, s.chunkAt[Trailer(c) := c]) && ChunksApart(s.chunkAt[Trailer(c) := c])
  {
    PrependNoDup(s.chunkList, Trailer(c));
    hide NoDup;
  }

  lemma PagesStay(s: State, t: State)
    requires PagesOk(s) && t.views == s.views && t.home == s.home
    ensures PagesOk(t)
  {
    hide PageOk;
  }

  lemma PagesApartAdded(s: State, c: Chunk)
    requires PagesApart(s.views, s.chunkAt) && Trailer(c) >= 0
    requires forall b | b in s.views :: RangesApart(b, PAGE_SIZE, c.ptr, c.size)
    ensures PagesApart(s.views, s.chunkAt[Trailer(c) := c])
  {
  }

  lemma LiveChunkAdded(s: State, t: State, c: Chunk, size: nat)
    requires LiveOk(s) && LARGE_CHUNK_MINIMUM < size < LARGE_CHUNK_MAXIMUM && c.size == ChunkSize(size)
    requires ChunkOk(c) && c.ptr !in s.live && Trailer(c) !in s.chunkAt && t == WithChunk(s, c, size)
    ensures LiveOk(t)
  {
    hide ChunkSize, LiveBacked, RunsLive, ChunksLive;
    BackedChunkAdded(s, t, c, size);
    RunsLiveAdded(s.views, s.live, c.ptr, size);
    ChunksLiveAdded(s, t, c, size);
  }

  lemma BackedChunkAdded(s: State, t: State, c: Chunk, size: nat)
    requires LiveBacked(s) && LARGE_CHUNK_MINIMUM < size < LARGE_CHUNK_MAXIMUM && c.size == ChunkSize(size)
    requires ChunkOk(c) && c.ptr !in s.live && Trailer(c) !in s.chunkAt && t == WithChunk(s, c, size)
    ensures LiveBacked(t)
  {
    hide ChunkSize, CellsOf, PageOf, IndexOf, Address;
    forall p | p in t.live
      ensures Backed(t, p, t.live[p])
    {
      if p != c.ptr {
        assert Backed(s, p, s.live[p]);
      }
    }
  }

  lemma RunsLiveAdded(views: map<nat, View>, live: map<nat, nat>, ptr: nat, size: nat)
    requires RunsLive(views, live) && ptr !in live
    ensures RunsLive(views, live[ptr := size])
  {
    hide CellsOf, Address;
    forall b, i | b in views && i in views[b].runs
      ensures RunLive(views[b].runs[i], b, i, live[ptr := size])
    {
      assert RunLive(views[b].runs[i], b, i, live);
    }
  }

  lemma ChunksLiveAdded(s: State, t: State, c: Chunk, size: nat)
    requires ChunksLive(s.chunkAt, s.live) && size > LARGE_CHUNK_MINIMUM && c.size == ChunkSize(size)
    requires c.ptr !in s.live && Trailer(c) >= 0 && t == WithChunk(s, c, size)
    ensures ChunksLive(t.chunkAt, t.live)
  {
    hide ChunkSize;
    forall u | u in t.chunkAt
      ensures ChunkLive(t.chunkAt[u], t.live)
    {
      if u != Trailer(c) {
        assert ChunkLive(s.chunkAt[u], s.live);
      }
    }
  }

  function WithoutChunk(s: State, t: nat, ptr: nat): State {
    s.(chunkList := Without(s.chunkList, t), chunkAt := s.chunkAt - {t}, live := s.live - {ptr})
  }

  lemma InvChunkGone(s: State, ptr: nat)
    requires Inv(s) && ptr in s.live && s.live[ptr] > LARGE_CHUNK_MINIMUM
    ensures LargeBacked(s.chunkAt, ptr, s.live[ptr])
    ensures Inv(WithoutChunk(s, ptr + ChunkSize(s.live[ptr]) - LARGE_CHUNK_SIZE, ptr))
  {
    hide ListsOk, PagesOk, ChunksOk, ChunksApart, PagesApart, LiveBacked, RunsLive, ChunksLive, ChunkSize, Without;
    LiveIsBacked(s, ptr);
    var u := ptr + ChunkSize(s.live[ptr]) - LARGE_CHUNK_SIZE;
    var t := WithoutChunk(s, u, ptr);
    ChunksTaken(s, u);
    PagesStay(s, t);
    LiveChunkGone(s, t, u, ptr);
  }

  lemma ChunksTaken(s: State, t: nat)
    requires ChunksOk(s.chunkList, s.chunkAt) && ChunksApart(s.chunkAt) && PagesApart(s.views, s.chunkAt)
    ensures ChunksOk(Without(s.chunkList, t), s.chunkAt - {t}) && ChunksApart(s.chunkAt - {t}) && PagesApart(s.views, s.chunkAt - {t})
  {
    WithoutNoDup(s.chunkList, t);
    hide NoDup, Without;
  }

  lemma LiveChunkGone(s: State, t: State, u: nat, ptr: nat)
    requires LiveOk(s) && PagesOk(s) && ChunksOk(s.chunkList, s.chunkAt) && ChunksApart(s.chunkAt)
    requires ptr in s.live && s.live[ptr] > LARGE_CHUNK_MINIMUM && LargeBacked(s.chunkAt, ptr, s.live[ptr])
    requires u == ptr + ChunkSize(s.live[ptr]) - LARGE_CHUNK_SIZE
    requires t.views == s.views && t.chunkAt == s.chunkAt - {u} && t.live == s.live - {ptr}
    ensures LiveOk(t)
  {
    hide ChunkSize, LiveBacked, RunsLive, ChunksLive, PagesOk, ChunksOk, ChunksApart;
    assert s.chunkAt[u].ptr == ptr;
    BackedChunkGone(s, t, u, ptr);
    RunsLiveGone(s.views, s.live, ptr);
    ChunksLiveGone(s, t, u, ptr);
  }

  lemma BackedChunkGone(s: State, t: State, u: nat, ptr: nat)
    requires LiveBacked(s) && u in s.chunkAt && s.chunkAt[u].ptr == ptr
    requires t.views == s.views && t.chunkAt == s.chunkAt - {u} && t.live == s.live - {ptr}
    ensures LiveBacked(t)
  {
    hide ChunkSize, CellsOf, PageOf, IndexOf, Address;
    forall p | p in t.live
      ensures Backed(t, p, t.live[p])
    {
      assert Backed(s, p, s.live[p]);
    }
  }

  lemma RunsLiveGone(views: map<nat, View>, live: map<nat, nat>, ptr: nat)
    requires RunsLive(views, live) && ptr in live && live[ptr] > LARGE_CHUNK_MINIMUM
    ensures RunsLive(views, live - {ptr})
  {
    hide CellsOf, Address;
    forall b, i | b in views && i in views[b].runs
      ensures RunLive(views[b].runs[i], b, i, live - {ptr})
    {
      assert RunLive(views[b].runs[i], b, i, live);
    }
  }

  lemma ChunksLiveGone(s: State, t: State, u: nat, ptr: nat)
    requires ChunksLive(s.chunkAt, s.live) && ChunksOk(s.chunkList, s.chunkAt) && ChunksApart(s.chunkAt)
    requires u in s.chunkAt && s.chunkAt[u].ptr == ptr
    requires t.chunkAt == s.chunkAt - {u} && t.live == s.live - {ptr}
    ensures ChunksLive(t.chunkAt, t.live)
  {
    hide ChunkSize, ChunksOk, ChunksApart;
    forall w | w in t.chunkAt
      ensures ChunkLive(t.chunkAt[w], t.live)
    {
      assert ChunkLive(s.chunkAt[w], s.live);
      if s.chunkAt[w].ptr == ptr {
        SamePtr(s, u, w);
      }
    }
  }

  lemma SamePtr(s: State, u: nat, w: nat)
    requires ChunksOk(s.chunkList, s.chunkAt) && ChunksApart(s.chunkAt)
    requires u in s.chunkAt && w in s.chunkAt && s.chunkAt[u].ptr == s.chunkAt[w].ptr
    ensures u == w
  {
    hide NoDup;
  }

  /** A new pool. */
  lemma InvCreated(home: nat, bits: seq<bv8>)
    requires home > 0 && home % PAGE_SIZE == 0 && PageOk(View(bits, NUM_CELLS, map[]), POOL_CELLS)
    ensures Inv(State(home, [home], [], map[home := View(bits, NUM_CELLS, map[])], [], map[], map[]))
  {
    hide PageOk;
  }

  // ---- the search for room

  predicate RoomAt(v: View, index: nat, cells: nat) {
    v.numFree >= cells && FreeRun(v.bits, index, cells) && forall k | 0 <= k < index :: !FreeRun(v.bits, k, cells)
  }

  /** The estimate admits the request and there are enough free cells in a row. */
  ghost predicate HasRoom(s: State, b: nat, cells: nat) {
    b in s.views && s.views[b].numFree >= cells && exists i :: FreeRun(s.views[b].bits, i, cells)
  }

  /** Estimates may have gone down, and pages may have changed lists; all else is the same. */
  predicate Lowered(s: State, t: State) {
    && t == s.(pages := t.pages, full := t.full, views := t.views)
    && s.views.Keys == t.views.Keys
    && forall b | b in s.views :: t.views[b] == s.views[b].(numFree := t.views[b].numFree) && t.views[b].numFree <= s.views[b].numFree
  }

  /** The pages not visited yet are as the search found them. */
  predicate SameFrom(s: State, t: State, all: seq<nat>, k: nat) {
    && NoDup(all)
    && forall m | k <= m < |all| :: all[m] in s.views && all[m] in t.views && t.views[all[m]] == s.views[all[m]]
  }

  lemma SearchStarts(s: State)
    requires Inv(s)
    ensures Lowered(s, s) && SameFrom(s, s, s.pages, 0)
  {
    hide PagesOk, ChunksOk, ChunksApart, PagesApart, LiveBacked, RunsLive, ChunksLive;
  }

  lemma OnList(s: State, b: nat)
    requires Inv(s) && b in s.pages
    ensures b in s.views && |s.views[b].bits| == BITMAP_SIZE && Padded(s.views[b].bits, NUM_CELLS) && NoDup(s.pages)
  {
    hide ChunksOk, ChunksApart, PagesApart, LiveBacked, RunsLive, ChunksLive, NoDup, Used, RunsApart, RunsInside, InRun;
    assert PageOk(s.views[b], Reserved(s, b));
  }

  lemma RoomFound(s: State, t: State, all: seq<nat>, k: nat, index: int, cells: nat)
    requires SameFrom(s, t, all, k) && k < |all| && t.views[all[k]].numFree >= cells && index >= -1
    requires index >= 0 ==> FreeRun(t.views[all[k]].bits, index, cells)
    requires forall i | 0 <= i && (index >= 0 ==> i < index) :: !FreeRun(t.views[all[k]].bits, i, cells)
    ensures index == -1 ==> !HasRoom(s, all[k], cells)
    ensures index >= 0 ==> RoomAt(t.views[all[k]], index, cells)
  {
    hide FreeRun;
  }

  lemma NoEstimate(s: State, t: State, all: seq<nat>, k: nat, cells: nat)
    requires SameFrom(s, t, all, k) && k < |all| && t.views[all[k]].numFree < cells
    ensures !HasRoom(s, all[k], cells) && SameFrom(s, t, all, k + 1)
  {
    hide FreeRun;
  }

  lemma SearchStep(s: State, t: State, all: seq<nat>, k: nat, i: nat, n: nat)
    requires SameFrom(s, t, all, k) && Lowered(s, t) && k < |all| && i < |t.pages| && t.pages[i] == all[k] && NoDup(t.pages)
    requires n <= t.views[all[k]].numFree && t.pages[i + 1..] == all[k + 1..]
    ensures var t' := Placed(t, all[k], t.views[all[k]].(numFree := n), t.live);
      && Lowered(s, t') && SameFrom(s, t', all, k + 1)
      && (if n < THRESHOLD then i <= |t'.pages| && t'.pages[i..] == all[k + 1..] && |t'.pages| == |t.pages| - 1 else t'.pages == t.pages)
  {
    WithoutIs(t.pages, i);
    hide Without;
  }

  /** The first `k` of the pages `all` were searched in vain: where the estimate admitted the request
      it is now one less than was asked for. */
  function Searched(s: State, all: seq<nat>, k: nat, cells: nat): State
    requires k <= |all| && cells >= 1
  {
    if k == 0 then s
    else
      var t, b := Searched(s, all, k - 1, cells), all[k - 1];
      if b in t.views && t.views[b].numFree >= cells then Placed(t, b, t.views[b].(numFree := cells - 1), t.live) else t
  }

  /** Just the cells of page `b` from `index` on have become a block of `size` bytes. */
  predicate Took(s: State, t: State, b: nat, index: nat, size: nat) {
    && b in s.views && b in t.views && CellsOf(size) <= s.views[b].numFree
    && Marked(t.views[b].bits, s.views[b].bits, index, CellsOf(size), true)
    && var v := View(t.views[b].bits, s.views[b].numFree - CellsOf(size), s.views[b].runs[index := CellsOf(size)]);
      t == Placed(s, b, v, s.live[Address(b, index) := size])
  }

  /** What `Pool_Get_Cells` does: `k` pages are searched that have no room, and the cells are taken from
      the next one, at the lowest place with room, or behind the last page from the start of a new one
      at `address`. */
  ghost predicate GotCells(s: State, t: State, k: nat, index: nat, size: nat, ptr: nat, address: nat, bits: seq<bv8>)
    requires 1 <= size <= LARGE_CHUNK_MINIMUM
  {
    CellsFit(size);
    && k <= |s.pages| && (forall m | 0 <= m < k :: !HasRoom(s, s.pages[m], CellsOf(size)))
    && var before := Searched(s, s.pages, k, CellsOf(size));
      if k < |s.pages| then
        && s.pages[k] in before.views && RoomAt(before.views[s.pages[k]], index, CellsOf(size))
        && ptr == Address(s.pages[k], index) && Took(before, t, s.pages[k], index, size)
      else ptr == Address(address, 0) && Took(WithPage(before, address, View(bits, NUM_CELLS, map[])), t, address, 0, size)
  }

  /** A chunk at `ptr` is there as well. */
  predicate GotChunk(s: State, t: State, ptr: nat, size: nat)
    requires size < LARGE_CHUNK_MAXIMUM
  {
    ChunkFits(size);
    t == WithChunk(s, Chunk(ptr, ChunkSize(size)), size)
  }

  /** Just the chunk at `ptr`, which had its trailer at its end, is gone. */
  predicate GaveChunk(s: State, t: State, ptr: nat, size: nat)
    requires size < LARGE_CHUNK_MAXIMUM
  {
    ChunkFits(size);
    var u := Trailer(Chunk(ptr, ChunkSize(size)));
    u in s.chunkAt && s.chunkAt[u] == Chunk(ptr, ChunkSize(size)) && t == WithoutChunk(s, u, ptr)
  }

  /** Just the cells of the block at `ptr` have become free. */
  predicate Gave(s: State, t: State, ptr: nat)
    requires ptr in s.live
  {
    var b, i, n := PageOf(ptr), IndexOf(ptr), CellsOf(s.live[ptr]);
    && b in s.views && b in t.views && i >= 0
    && Marked(t.views[b].bits, s.views[b].bits, i, n, false)
    && t == Returned(s, b, View(t.views[b].bits, s.views[b].numFree + n, s.views[b].runs - {i}), s.live - {ptr})
  }

  /** Memory that neither a page nor a large chunk of the pool occupies. */
  predicate Vacant(s: State, address: nat, size: nat) {
    && (forall b | b in s.views :: RangesApart(b, PAGE_SIZE, address, size))
    && (forall t | t in s.chunkAt :: RangesApart(s.chunkAt[t].ptr, s.chunkAt[t].size, address, size))
  }

  lemma VacantPage(s: State, b: nat, v: View)
    requires Inv(s) && b > 0 && b % PAGE_SIZE == 0 && Vacant(s, b, PAGE_SIZE)
    requires PageOk(v, 0) && v.numFree == NUM_CELLS && v.runs == map[]
    ensures b !in s.views && Inv(WithPage(s, b, v))
  {
    hide Inv, PageOk;
    InvPage(s, b, v);
  }

  lemma FreshRoom(bits: seq<bv8>, cells: nat)
    requires JustPaddingSet(bits) && cells <= NUM_CELLS
    ensures RoomAt(View(bits, NUM_CELLS, map[]), 0, cells)
  {
    hide Used;
  }

  lemma RoomInPage(s: State, b: nat, index: nat, cells: nat)
    requires b in s.views && RoomAt(s.views[b], index, cells)
    ensures FreeRun(s.views[b].bits, index, cells) && cells <= s.views[b].numFree
    ensures index + cells <= 8 * |s.views[b].bits|
  {
    hide Used;
  }

  lemma VacantStill(s: State, t: State, address: nat, size: nat)
    requires Lowered(s, t) && Vacant(s, address, size)
    ensures Vacant(t, address, size)
  {
  }

  /** A search that found nothing had nothing to find. */
  lemma NothingToFind(s: State, all: seq<nat>, cells: nat)
    requires forall k | 0 <= k < |all| :: !HasRoom(s, all[k], cells)
    ensures !exists b | b in all :: HasRoom(s, b, cells)
  {
    hide HasRoom;
  }

  lemma LoweredKeeps(s: State, t: State)
    requires Lowered(s, t)
    ensures t.live == s.live && t.chunkAt == s.chunkAt && t.chunkList == s.chunkList && t.home == s.home && t.views.Keys == s.views.Keys
  {
  }
}
