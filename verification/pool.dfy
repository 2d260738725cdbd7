/** pool.c.  Memory is reached through addresses: `memory` holds the pages and `chunkAt` the
    trailers of large chunks.  The lists of list.c are sequences of addresses here. */
module PoolAllocator {
  import opened PoolBits
  import opened PoolModel
  import opened PoolEstimate

  /** A page: its bitmap and the estimate of its free cells, a `USHORT`. */
  class Page {
    const bitmap: array<bv8>
    var numFree: nat

    constructor (numFree: nat)
      ensures this.numFree == numFree && fresh(bitmap) && bitmap.Length == BITMAP_SIZE
    {
      bitmap := new bv8[128];
      this.numFree := numFree;
    }
  }

  /** The pages are distinct objects with distinct bitmaps. */
  ghost predicate Distinct(memory: map<nat, Page>) {
    forall b, c | b in memory && c in memory && b != c :: memory[b] != memory[c] && memory[b].bitmap != memory[c].bitmap
  }

  ghost function Bitmaps(memory: map<nat, Page>): set<array<bv8>> {
    set b | b in memory :: memory[b].bitmap
  }

  /** What is in the pages. */
  ghost predicate Holds(memory: map<nat, Page>, views: map<nat, View>)
    reads memory.Values, Bitmaps(memory)
  {
    && memory.Keys == views.Keys && Distinct(memory)
    && forall b | b in memory :: views[b].numFree == memory[b].numFree && views[b].bits == memory[b].bitmap[..]
  }

  lemma HoldsAt(memory: map<nat, Page>, views: map<nat, View>, b: nat)
    requires Holds(memory, views)
    ensures b in memory <==> b in views
    ensures b in memory ==> views[b].numFree == memory[b].numFree && views[b].bits == memory[b].bitmap[..]
    ensures b in memory ==> memory[b] in memory.Values && memory[b].bitmap in Bitmaps(memory)
  {
  }

  method SetFree(memory: map<nat, Page>, b: nat, n: nat, ghost views: map<nat, View>)
    requires Holds(memory, views) && b in memory && b in views
    modifies memory[b]
    ensures Holds(memory, views[b := views[b].(numFree := n)])
  {
    memory[b].numFree := n;
  }

  /** The bitmap of one page changes, and perhaps its estimate; `runs` says what its cells are
      now used for. */
  method SetCells(memory: map<nat, Page>, b: nat, n: nat, index: nat, size: nat, value: bool, ghost views: map<nat, View>, ghost runs: map<nat, nat>) returns (ghost bits: seq<bv8>)
    requires Holds(memory, views) && b in memory && b in views && index + size <= 8 * memory[b].bitmap.Length
    modifies memory[b], memory[b].bitmap
    ensures Marked(bits, views[b].bits, index, size, value) && Holds(memory, views[b := View(bits, n, runs)])
  {
    hide Marked;
    memory[b].numFree := n;
    if value {
      TakeCells(memory[b].bitmap, index, size);
    } else {
      ReleaseCells(memory[b].bitmap, index, size);
    }
    bits := memory[b].bitmap[..];
  }

  class Pool {
    var home: nat
    var pages: seq<nat>
    var fullPages: seq<nat>
    var largeChunks: seq<nat>
    var initialBitmap: seq<bv8>
    var memory: map<nat, Page>
    var chunkAt: map<nat, Chunk>
    ghost var state: State

    ghost predicate Valid()
      reads this, memory.Values, Bitmaps(memory)
    {
      && Holds(memory, state.views) && Inv(state)
      && home == state.home && pages == state.pages && fullPages == state.full
      && largeChunks == state.chunkList && chunkAt == state.chunkAt
      && JustPaddingSet(initialBitmap)
    }

    /** The pages do not contain the fields of the pool that these methods assign. */
    lemma Outside()
      ensures forall a | a in Bitmaps(memory) :: (a as object) != (this as object)
      ensures forall p | p in memory.Values :: (p as object) != (this as object)
    {
    }

    /** `Pool_CreateTagged`, on a page that memory gives at `address`. */
    constructor (address: nat)
      requires address > 0 && address % PAGE_SIZE == 0
      ensures Valid() && home == address && state.live == map[] && memory.Keys == {address}
      ensures pages == [address] && address in state.views && state.views[address].numFree == NUM_CELLS && state.views[address].runs == map[]
      ensures fresh(memory.Values) && fresh(Bitmaps(memory))
    {
      hide Inv, Used, Marked, PageOk;
      var page := new Page(NUM_CELLS);
      InitialBitmap(page.bitmap, NUM_CELLS);
      var initial := page.bitmap[..];
      assert JustPaddingSet(initial);
      MarkPool(page.bitmap);
      FirstPage(page.bitmap[..], initial);
      InvCreated(address, page.bitmap[..]);
      home, pages, fullPages, largeChunks := address, [address], [], [];
      initialBitmap := initial;
      memory, chunkAt := map[address := page], map[];
      state := State(address, [address], [], map[address := View(page.bitmap[..], NUM_CELLS, map[])], [], map[], map[]);
    }

    /** A page found without room: its estimate goes down, and with it perhaps its list. */
    method LowerEstimate(b: nat, n: nat)
      requires Valid() && b in pages && b in memory && b in state.views && n <= memory[b].numFree
      modifies `pages, `fullPages, `state, memory[b]
      ensures Valid() && state == Placed(old(state), b, old(state).views[b].(numFree := n), old(state).live)
    {
      hide Inv, Holds, Without, JustPaddingSet;
      HoldsAt(memory, state.views, b);
      InvLowered(state, b, n);
      ghost var s := Placed(state, b, state.views[b].(numFree := n), state.live);
      SetFree(memory, b, n, state.views);
      HoldsAt(memory, s.views, b);
      if memory[b].numFree < THRESHOLD {
        pages := Without(pages, b);
        fullPages := [b] + fullPages;
      }
      state := s;
    }

    /** The search of `Pool_Get_Cells`: the first page on the list that has room.  Of the pages searched in vain the
        estimate goes down to one less than was asked for, and no page overlooks a request that it did not overlook
        before. */
    method FindPage(cells: nat) returns (b: nat, index: int, ghost k: nat)
      requires Valid() && 1 <= cells <= NUM_CELLS
      modifies `pages, `fullPages, `state, memory.Values
      ensures Valid() && Lowered(old(state), state)
      ensures index == -1 ==> forall k | 0 <= k < |old(pages)| :: !HasRoom(old(state), old(pages)[k], cells)
      ensures index != -1 ==> 0 <= index < NUM_CELLS && b in pages && b in state.views && RoomAt(state.views[b], index, cells)
      ensures index != -1 ==> k < |old(pages)| && old(pages)[k] == b && forall m | 0 <= m < k :: !HasRoom(old(state), old(pages)[m], cells)
      ensures k <= |old(pages)| && (index == -1 ==> k == |old(pages)|) && state == Searched(old(state), old(pages), k, cells)
      ensures initialBitmap == old(initialBitmap)
      ensures forall m | 0 <= m < k :: var page := old(pages)[m];
        && page in old(state).views && page in state.views
        && state.views[page] == (if old(state).views[page].numFree >= cells then old(state).views[page].(numFree := cells - 1) else old(state).views[page])
      ensures forall page | page in old(state).views && page !in old(pages)[..k] :: page in state.views && state.views[page] == old(state).views[page]
      ensures forall page | page in old(state).views :: page in state.views && forall n: nat :: Overlooked(state.views[page], n) <==> Overlooked(old(state).views[page], n)
      ensures forall m | 0 <= m < k && old(state).views[old(pages)[m]].numFree >= cells :: !Overlooks(state.views[old(pages)[m]])
      ensures SameOrder(pages, old(pages))
    {
      hide Inv, Holds, JustPaddingSet, HasRoom, RoomAt, Lowered, Searched, SearchedTo, Overlooked, SameOrder;
      ghost var s := state;
      b, index, k := SearchPages(cells);
      SearchedIs(s, k, cells);
      SearchedFairly(s, state, k, cells);
    }

    /** Its loop. */
    method SearchPages(cells: nat) returns (b: nat, index: int, ghost k: nat)
      requires Valid() && 1 <= cells <= NUM_CELLS
      modifies `pages, `fullPages, `state, memory.Values
      ensures Valid() && Lowered(old(state), state)
      ensures index == -1 ==> forall k | 0 <= k < |old(pages)| :: !HasRoom(old(state), old(pages)[k], cells)
      ensures index != -1 ==> 0 <= index < NUM_CELLS && b in pages && b in state.views && RoomAt(state.views[b], index, cells)
      ensures index != -1 ==> k < |old(pages)| && old(pages)[k] == b && forall m | 0 <= m < k :: !HasRoom(old(state), old(pages)[m], cells)
      ensures k <= |old(pages)| && (index == -1 ==> k == |old(pages)|) && state == Searched(old(state), old(pages), k, cells)
      ensures initialBitmap == old(initialBitmap)
    {
      hide Inv, Holds, Without, JustPaddingSet, HasRoom, RoomAt, Lowered, SameFrom, FreeRun, Padded, Placed, NoDup;
      ghost var s, all := state, pages;
      k := 0;
      SearchStarts(s);
      b, index := 0, -1;
      var i := 0;
      while i < |pages|
        invariant Valid() && Lowered(s, state) && memory == old(memory)
        invariant 0 <= i <= |pages| && 0 <= k <= |all| && pages[i..] == all[k..]
        invariant forall m | 0 <= m < k :: !HasRoom(s, all[m], cells)
        invariant SameFrom(s, state, all, k) && state == Searched(s, all, k, cells)
        decreases |pages| - i
      {
        var page := pages[i];
        assert page == pages[i..][0] == all[k] && pages[i + 1..] == all[k + 1..];
        OnList(state, page);
        HoldsAt(memory, state.views, page);
        if memory[page].numFree >= cells {
          index := FindCells(memory[page].bitmap, NUM_CELLS, cells);
          HoldsAt(memory, state.views, page);
          RoomFound(s, state, all, k, index, cells);
          if index != -1 {
            b := page;
            return;
          }
          SearchStep(s, state, all, k, i, cells - 1);
          LowerEstimate(page, cells - 1);
          if cells - 1 >= THRESHOLD {
            i := i + 1;
          }
        } else {
          NoEstimate(s, state, all, k, cells);
          i := i + 1;
        }
        k := k + 1;
      }
    }

    /** A new page with the initial bitmap. */
    method MakePage(address: nat)
      requires Holds(memory, state.views) && address !in state.views && |initialBitmap| == BITMAP_SIZE
      modifies `memory
      ensures address !in old(memory) && address in memory && memory == old(memory)[address := memory[address]]
      ensures fresh(memory[address]) && fresh(memory[address].bitmap)
      ensures Holds(memory, state.views[address := View(initialBitmap, NUM_CELLS, map[])])
    {
      var page := new Page(NUM_CELLS);
      forall i | 0 <= i < BITMAP_SIZE {
        page.bitmap[i] := initialBitmap[i];
      }
      assert page.bitmap[..] == initialBitmap;
      memory := memory[address := page];
    }

    /** `Pool_Alloc_Page`, on memory at `address`. */
    method AllocPage(address: nat)
      requires Valid() && address > 0 && address % PAGE_SIZE == 0 && Vacant(state, address, PAGE_SIZE)
      modifies `pages, `memory, `state
      ensures Valid() && state == WithPage(old(state), address, View(initialBitmap, NUM_CELLS, map[]))
      ensures address !in old(memory) && address in memory && memory == old(memory)[address := memory[address]]
      ensures fresh(memory[address]) && fresh(memory[address].bitmap)
    {
      hide Inv, Holds, Used, JustPaddingSet, Vacant;
      ghost var v := View(initialBitmap, NUM_CELLS, map[]);
      FreshPage(initialBitmap);
      VacantPage(state, address, v);
      MakePage(address);
      HoldsAt(memory, state.views[address := v], address);
      pages := [address] + pages;
      state := WithPage(state, address, v);
    }

    /** The rest of `Pool_Get_Cells`: the cells of the page are marked, its estimate and perhaps
        its list change. */
    method TakeFrom(b: nat, index: nat, cells: nat, ghost size: nat)
      requires Valid() && b in pages && b in state.views && 1 <= size <= LARGE_CHUNK_MINIMUM && cells == CellsOf(size)
      requires RoomAt(state.views[b], index, cells)
      modifies `pages, `fullPages, `state, memory.Values, Bitmaps(memory)
      ensures Valid() && Address(b, index) !in old(state).live && state.live == old(state).live[Address(b, index) := size]
      ensures Took(old(state), state, b, index, size)
      ensures state.views.Keys == old(state).views.Keys && state.chunkAt == old(state).chunkAt
    {
      hide Inv, Holds, Without, JustPaddingSet, FreeRun, Used, CellsOf, Address, Marked;
      HoldsAt(memory, state.views, b);
      RoomInPage(state, b, index, cells);
      var n := memory[b].numFree - cells;
      ghost var was, runs := state, state.views[b].runs[index := cells];
      ghost var bits := SetCells(memory, b, n, index, cells, true, state.views, runs);
      InvTaken(was, b, index, size, bits);
      if n < THRESHOLD {
        pages := Without(pages, b);
        fullPages := [b] + fullPages;
      }
      state := Placed(was, b, View(bits, n, runs), was.live[Address(b, index) := size]);
    }

    /** `Pool_Get_Cells`; `address` is where memory for a new page would come from.  `k` pages were
        searched in vain, and the cells are taken from the next one or from a new page. */
    method GetCells(cells: nat, address: nat, ghost size: nat) returns (ptr: nat, ghost k: nat, ghost index: nat)
      requires Valid() && 1 <= size <= LARGE_CHUNK_MINIMUM && cells == CellsOf(size)
      requires address > 0 && address % PAGE_SIZE == 0 && Vacant(state, address, PAGE_SIZE)
      modifies this, memory.Values, Bitmaps(memory)
      ensures Valid() && ptr !in old(state).live && state.live == old(state).live[ptr := size]
      ensures state.chunkAt == old(state).chunkAt
      ensures state.views.Keys == old(state).views.Keys || state.views.Keys == old(state).views.Keys + {address}
      ensures (exists b | b in old(pages) :: HasRoom(old(state), b, cells)) ==> state.views.Keys == old(state).views.Keys
      ensures GotCells(old(state), state, k, index, size, ptr, address, old(initialBitmap))
      ensures FairlyTook(old(state), state, ptr, cells) && Ordered(old(state), state)
    {
      hide Inv, Holds, HasRoom, CellsOf, Vacant, GotCells, FairlyTook, Ordered, JustPaddingSet;
      ghost var s, bits := state, initialBitmap;
      assert JustPaddingSet(bits);
      VacantIsNew(s, address);
      ptr, k, index := SearchAndTake(cells, address, size);
      IsFair(s, state, k, index, size, ptr, address, bits);
    }

    /** The search and the taking. */
    method SearchAndTake(cells: nat, address: nat, ghost size: nat) returns (ptr: nat, ghost k: nat, ghost index: nat)
      requires Valid() && 1 <= size <= LARGE_CHUNK_MINIMUM && cells == CellsOf(size)
      requires address > 0 && address % PAGE_SIZE == 0 && Vacant(state, address, PAGE_SIZE)
      modifies this, memory.Values, Bitmaps(memory)
      ensures Valid() && ptr !in old(state).live && state.live == old(state).live[ptr := size]
      ensures state.chunkAt == old(state).chunkAt
      ensures state.views.Keys == old(state).views.Keys || state.views.Keys == old(state).views.Keys + {address}
      ensures (exists b | b in old(pages) :: HasRoom(old(state), b, cells)) ==> state.views.Keys == old(state).views.Keys
      ensures GotCells(old(state), state, k, index, size, ptr, address, old(initialBitmap))
    {
      hide Inv, Holds, RoomAt, HasRoom, CellsOf, Vacant, Lowered, JustPaddingSet, Took, Searched;
      CellsFit(size);
      var b, place;
      b, place, k := FindPage(cells);
      LoweredKeeps(old(state), state);
      if place == -1 {
        NothingToFind(old(state), old(pages), cells);
        VacantStill(old(state), state, address, PAGE_SIZE);
        AllocPage(address);
        FreshRoom(initialBitmap, cells);
        b, place := address, 0;
      }
      index := place;
      TakeFrom(b, place, cells, size);
      ptr := b + CELLS_START + place * CELL_SIZE;
    }

    /** `Pool_Free_Cells`. */
    method FreeCells(ptr: nat, cells: nat)
      requires Valid() && ptr in state.live && state.live[ptr] <= LARGE_CHUNK_MINIMUM && cells == CellsOf(state.live[ptr])
      modifies `pages, `fullPages, `state, memory.Values, Bitmaps(memory)
      ensures Valid() && state.live == old(state).live - {ptr}
      ensures Gave(old(state), state, ptr) && FairlyGave(old(state), state, ptr)
      ensures state.views.Keys == old(state).views.Keys && state.chunkAt == old(state).chunkAt
    {
      hide Inv, Holds, Without, JustPaddingSet, Used, CellsOf, Address, Marked, PageOf, IndexOf, FairlyGave;
      var b := PageOf(ptr);
      InvReturned(state, ptr, state.views[b].bits) by { BackedPage(state, ptr); }
      var index := IndexOf(ptr);
      HoldsAt(memory, state.views, b);
      ghost var was, runs := state, state.views[b].runs - {index};
      var numFree := memory[b].numFree;
      if numFree < THRESHOLD && numFree + cells >= THRESHOLD {
        fullPages := Without(fullPages, b);
        pages := [b] + pages;
      }
      var n := numFree + cells;
      assert n < 0x1_0000;
      ghost var bits := SetCells(memory, b, n, index, cells, false, was.views, runs);
      InvReturned(was, ptr, bits);
      state := Returned(was, b, View(bits, n, runs), was.live - {ptr});
      FreedIsFair(was, state, ptr);
    }

    /** `Pool_Get_Large_Chunk`, on memory at `address`. */
    method GetLargeChunk(size: nat, address: nat) returns (ptr: nat)
      requires Valid() && LARGE_CHUNK_MINIMUM < size < LARGE_CHUNK_MAXIMUM
      requires address > 0 && address % PAGE_SIZE == 0 && Vacant(state, address, ChunkSize(size))
      modifies `largeChunks, `chunkAt, `state
      ensures Valid() && ptr == address && ptr !in old(state).live && state.live == old(state).live[ptr := size]
      ensures GotChunk(old(state), state, ptr, size)
    {
      hide Inv, Holds, JustPaddingSet, ChunkSize;
      var largeChunkSize := ChunkSize(size);
      ptr := address;
      InvChunk(state, ptr, size);
      Outside();
      var chunk := Chunk(ptr, largeChunkSize);
      var trailer := ptr + largeChunkSize - LARGE_CHUNK_SIZE;
      chunkAt := chunkAt[trailer := chunk];
      largeChunks := [trailer] + largeChunks;
      state := WithChunk(state, chunk, size);
    }

    /** `Pool_Free_Large_Chunk`: the trailer is found again from the address and the size. */
    method FreeLargeChunk(ptr: nat, size: nat)
      requires Valid() && ptr in state.live && state.live[ptr] == size > LARGE_CHUNK_MINIMUM
      modifies `largeChunks, `chunkAt, `state
      ensures Valid() && state.live == old(state).live - {ptr}
      ensures size < LARGE_CHUNK_MAXIMUM && GaveChunk(old(state), state, ptr, size)
    {
      hide Inv, Holds, JustPaddingSet, ChunkSize, Without;
      var largeChunkSize := ChunkSize(size);
      InvChunkGone(state, ptr);
      Outside();
      var trailer := ptr + largeChunkSize - LARGE_CHUNK_SIZE;
      assert chunkAt[trailer] == Chunk(ptr, largeChunkSize);
      largeChunks := Without(largeChunks, trailer);
      chunkAt := chunkAt - {trailer};
      state := WithoutChunk(state, trailer, ptr);
    }

    /** `Pool_Alloc`; `address` is where memory would come from.  No block is handed out for a
        request of nothing or of too much. */
    method Alloc(size: nat, address: nat) returns (ptr: nat)
      requires Valid() && size < 0x1_0000_0000 && address > 0 && address % PAGE_SIZE == 0
      requires Vacant(state, address, if LARGE_CHUNK_MINIMUM < size < LARGE_CHUNK_MAXIMUM then ChunkSize(size) else PAGE_SIZE)
      modifies this, memory.Values, Bitmaps(memory)
      ensures Valid() && (ptr == 0 <==> size == 0 || size >= LARGE_CHUNK_MAXIMUM)
      ensures ptr == 0 ==> state == old(state)
      ensures ptr != 0 ==> ptr !in old(state).live && state.live == old(state).live[ptr := size]
      ensures ptr != 0 ==>
        if size > LARGE_CHUNK_MINIMUM then ptr == address && GotChunk(old(state), state, ptr, size)
        else
          && (exists k: nat, index: nat :: GotCells(old(state), state, k, index, size, ptr, address, old(initialBitmap)))
          && FairlyTook(old(state), state, ptr, CellsOf(size)) && Ordered(old(state), state)
          && ((exists b | b in old(pages) :: HasRoom(old(state), b, CellsOf(size))) ==> state.views.Keys == old(state).views.Keys)
    {
      hide Inv, Holds, JustPaddingSet, ChunkSize, CellsOf, Vacant, HasRoom, GotCells, GotChunk, FairlyTook, Ordered;
      if size >= LARGE_CHUNK_MAXIMUM {
        return 0;
      }
      ptr := 0;
      if size != 0 {
        if size > LARGE_CHUNK_MINIMUM {
          ptr := GetLargeChunk(size, address);
        } else {
          CellsFit(size);
          ghost var k, index;
          ptr, k, index := GetCells(CellsOf(size), address, size);
          AlignedIsLarge(state, ptr);
        }
      }
    }

    /** `Pool_Free`: false for the call the C code aborts on.  The test of the alignment leads to
        the path that allocated the block. */
    method Free(ptr: nat, size: nat) returns (ok: bool)
      requires Valid() && (ptr != 0 && size != 0 ==> ptr in state.live && state.live[ptr] == size)
      modifies this, memory.Values, Bitmaps(memory)
      ensures Valid() && (ok <==> ptr != 0 && size != 0)
      ensures if ok then state.live == old(state).live - {ptr} else state == old(state)
      ensures ok ==>
        if size > LARGE_CHUNK_MINIMUM then size < LARGE_CHUNK_MAXIMUM && GaveChunk(old(state), state, ptr, size) else Gave(old(state), state, ptr) && FairlyGave(old(state), state, ptr)
    {
      hide Inv, Holds, JustPaddingSet, ChunkSize, CellsOf, Gave, GaveChunk, FairlyGave;
      ok := ptr != 0 && size != 0;
      if ok {
        AlignedIsLarge(state, ptr);
        if ptr % PAGE_SIZE == 0 {
          FreeLargeChunk(ptr, size);
        } else {
          FreeCells(ptr, CellsOf(size));
        }
      }
    }
  }

  lemma BackedPage(s: State, ptr: nat)
    requires Inv(s) && ptr in s.live && s.live[ptr] <= LARGE_CHUNK_MINIMUM
    ensures PageOf(ptr) in s.views
  {
    assert Backed(s, ptr, s.live[ptr]);
  }

  /** The cells of the pool structure. */
  method MarkPool(bitmap: array<bv8>)
    requires bitmap.Length == BITMAP_SIZE
    modifies bitmap
    ensures Marked(bitmap[..], old(bitmap[..]), 0, POOL_CELLS, true)
  {
    hide Used, Marked, MaskAt;
    ghost var initial := bitmap[..];
    var i := 0;
    NothingMarked(initial, 0, true);
    while i < POOL_CELLS
      invariant 0 <= i <= POOL_CELLS && Marked(bitmap[..], initial, 0, i, true)
    {
      ghost var was := bitmap[..];
      bitmap[i / 8] := SetBit(bitmap[i / 8], MaskAt(i % 8));
      BitMarked(bitmap[..], was, initial, 0, i, true);
      i := i + 1;
    }
  }
}
