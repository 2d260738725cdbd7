/** The cell bitmap of a pool page: one bit a cell, set while the cell is in use. */
module PoolBits {

  /** The mask of bit `k` of a byte. */
  function MaskAt(k: nat): bv32
    requires k < 8
  {
    if k == 0 then 0x01 else if k == 1 then 0x02 else if k == 2 then 0x04 else if k == 3 then 0x08
    else if k == 4 then 0x10 else if k == 5 then 0x20 else if k == 6 then 0x40 else 0x80
  }

  /** The next mask, from the highest bit back to the lowest. */
  function Rotate(mask: bv32): bv32 {
    var m := mask << 1;
    (m & 0xFF) | (m >> 8)
  }

  predicate Test(b: bv8, mask: bv32) {
    (b as bv32) & mask != 0
  }

  function SetBit(b: bv8, mask: bv32): bv8 {
    (((b as bv32) | mask) & 0xFF) as bv8
  }

  function ClearBit(b: bv8, mask: bv32): bv8 {
    (((b as bv32) & !mask) & 0xFF) as bv8
  }

  predicate Used(bits: seq<bv8>, i: nat)
    requires i / 8 < |bits|
  {
    Test(bits[i / 8], MaskAt(i % 8))
  }

  lemma MaskRotates(k: nat)
    requires k < 8
    ensures Rotate(MaskAt(k)) == MaskAt((k + 1) % 8)
    ensures MaskAt(k) == 1 <==> k == 0
    ensures (MaskAt(k) & 1) != 0 <==> k == 0
  {
    assert (k + 1) % 8 == if k == 7 then 0 else k + 1;
  }

  lemma WholeBytes(k: nat)
    requires k < 8
    ensures !Test(0, MaskAt(k)) && Test(0xFF, MaskAt(k))
  {
  }

  lemma MasksDiffer(k: nat, m: nat)
    requires k < 8 && m < 8
    ensures MaskAt(k) & MaskAt(m) == if k == m then MaskAt(k) else 0
    ensures MaskAt(k) != 0 && MaskAt(k) & 0xFF == MaskAt(k)
  {
  }

  lemma SetTested(b: bv8, x: bv32, y: bv32)
    requires y & 0xFF == y
    ensures Test(SetBit(b, x), y) <==> Test(b, y) || x & y != 0
  {
  }

  lemma ClearTested(b: bv8, x: bv32, y: bv32)
    requires y & 0xFF == y
    ensures x == y ==> !Test(ClearBit(b, x), y)
    ensures x & y == 0 ==> (Test(ClearBit(b, x), y) <==> Test(b, y))
  {
    if x & y == 0 {
      assert !x & y == y;
    }
  }

  lemma BitSet(b: bv8, k: nat, m: nat)
    requires k < 8 && m < 8
    ensures Test(SetBit(b, MaskAt(k)), MaskAt(m)) <==> m == k || Test(b, MaskAt(m))
  {
    hide MaskAt, Test, SetBit;
    MasksDiffer(k, m);
    MasksDiffer(m, m);
    var x, y := MaskAt(k), MaskAt(m);
    SetTested(b, x, y);
  }

  lemma BitCleared(b: bv8, k: nat, m: nat)
    requires k < 8 && m < 8
    ensures Test(ClearBit(b, MaskAt(k)), MaskAt(m)) <==> m != k && Test(b, MaskAt(m))
  {
    hide MaskAt, Test, ClearBit;
    MasksDiffer(k, m);
    MasksDiffer(m, m);
    var x, y := MaskAt(k), MaskAt(m);
    ClearTested(b, x, y);
    if k == m {
      assert x == y;
    }
  }

  // ---- walking over the bits

  /** Byte `o` and `mask` stand for bit `i`. */
  predicate At(o: nat, mask: bv32, i: nat) {
    o == i / 8 && mask == MaskAt(i % 8)
  }

  /** By how much the byte moves on with a rotated mask. */
  function Carry(mask: bv32): nat {
    if mask & 1 != 0 then 1 else 0
  }

  lemma NextBit(o: nat, mask: bv32, i: nat)
    requires At(o, mask, i)
    ensures At(o + Carry(Rotate(mask)), Rotate(mask), i + 1)
  {
    hide MaskAt, Rotate;
    MaskRotates(i % 8);
    MaskRotates((i + 1) % 8);
    NextIndex(i);
  }

  lemma NextIndex(i: nat)
    ensures (i + 1) % 8 == (i % 8 + 1) % 8 && (i + 1) / 8 == i / 8 + if (i + 1) % 8 == 0 then 1 else 0
  {
  }

  /** A mask of one is at the first bit of a byte. */
  lemma NextByte(o: nat, mask: bv32, i: nat)
    requires At(o, mask, i) && mask == 1
    ensures i % 8 == 0 && At(o + 1, mask, i + 8)
  {
    hide MaskAt;
    MaskRotates(i % 8);
  }

  lemma TestedBit(bits: seq<bv8>, o: nat, mask: bv32, i: nat)
    requires At(o, mask, i) && o < |bits|
    ensures Test(bits[o], mask) == Used(bits, i)
  {
  }

  lemma ByteBits(bits: seq<bv8>, i: nat)
    requires i % 8 == 0 && i / 8 < |bits|
    ensures bits[i / 8] == 0 ==> forall k | i <= k < i + 8 :: !Used(bits, k)
    ensures bits[i / 8] == 0xFF ==> forall k | i <= k < i + 8 :: Used(bits, k)
  {
    forall k | i <= k < i + 8
      ensures bits[i / 8] == 0 ==> !Used(bits, k)
      ensures bits[i / 8] == 0xFF ==> Used(bits, k)
    {
      assert k / 8 == i / 8;
      WholeBytes(k % 8);
    }
  }

  // ---- Pool_Find_Cells

  /** `size` free cells from `i` on. */
  predicate FreeRun(bits: seq<bv8>, i: nat, size: nat) {
    i + size <= 8 * |bits| && forall k | i <= k < i + size :: !Used(bits, k)
  }

  /** The bits past the last cell are set. */
  predicate Padded(bits: seq<bv8>, cells: nat) {
    cells <= 8 * |bits| && forall k | cells <= k < 8 * |bits| :: Used(bits, k)
  }

  /** The inner loop behind a used cell: it skips whole bytes of used cells. */
  method SkipUsed(bitmap: array<bv8>, cells: nat, i: nat, start: nat, o0: nat, mask0: bv32) returns (j: nat, o: nat, mask: bv32)
    requires i < start && At(o0, mask0, start) && cells <= 8 * bitmap.Length && start <= 8 * bitmap.Length
    requires forall k | i <= k < start :: Used(bitmap[..], k)
    ensures start <= j <= 8 * bitmap.Length && At(o, mask, j)
    ensures forall k | i <= k < j :: Used(bitmap[..], k)
  {
    hide At, Test, Rotate, Carry, Used;
    j, o, mask := start, o0, mask0;
    while j < cells
      invariant start <= j <= 8 * bitmap.Length && At(o, mask, j)
      invariant forall k | i <= k < j :: Used(bitmap[..], k)
    {
      Position(o, mask, j);
      if mask == 1 && bitmap[o] == 0xFF {
        NextByte(o, mask, j);
        ByteBits(bitmap[..], j);
        j := j + 8;
        o := o + 1;
      } else {
        TestedBit(bitmap[..], o, mask, j);
        if !Test(bitmap[o], mask) {
          break;
        }
        NextBit(o, mask, j);
        j := j + 1;
        mask := Rotate(mask);
        o := o + Carry(mask);
      }
    }
  }

  lemma Position(o: nat, mask: bv32, i: nat)
    requires At(o, mask, i)
    ensures o == i / 8 && 8 * o <= i
  {
  }

  /** The inner loop behind a free cell: it skips whole bytes of free cells and stops at
      `size` of them. */
  method SkipFree(bitmap: array<bv8>, cells: nat, size: nat, i: nat, start: nat, o0: nat, mask0: bv32) returns (j: nat, o: nat, mask: bv32)
    requires i < start && At(o0, mask0, start) && cells <= 8 * bitmap.Length && start <= 8 * bitmap.Length
    requires forall k | i <= k < start :: !Used(bitmap[..], k)
    ensures start <= j <= 8 * bitmap.Length && At(o, mask, j)
    ensures forall k | i <= k < j :: !Used(bitmap[..], k)
    ensures j - i >= size || j >= cells || Used(bitmap[..], j)
  {
    hide At, Test, Rotate, Carry, Used;
    j, o, mask := start, o0, mask0;
    while j < cells && j - i < size
      invariant start <= j <= 8 * bitmap.Length && At(o, mask, j)
      invariant forall k | i <= k < j :: !Used(bitmap[..], k)
    {
      Position(o, mask, j);
      if mask == 1 && bitmap[o] == 0 {
        NextByte(o, mask, j);
        ByteBits(bitmap[..], j);
        j := j + 8;
        o := o + 1;
      } else {
        TestedBit(bitmap[..], o, mask, j);
        if Test(bitmap[o], mask) {
          break;
        }
        NextBit(o, mask, j);
        j := j + 1;
        mask := Rotate(mask);
        o := o + Carry(mask);
      }
    }
  }

  /** The lowest run of `size` free cells; -1 when there is none. */
  method FindCells(bitmap: array<bv8>, cells: nat, size: nat) returns (index: int)
    requires size >= 1 && Padded(bitmap[..], cells)
    ensures index == -1 || 0 <= index < cells
    ensures index >= 0 ==> FreeRun(bitmap[..], index, size)
    ensures forall k | 0 <= k && (index >= 0 ==> k < index) :: !FreeRun(bitmap[..], k, size)
  {
    hide At, Test, Rotate, Carry, Used, FreeRun;
    ghost var bits := bitmap[..];
    var mask: bv32, o: nat, i: nat := 1, 0, 0;
    StartAt();
    while i < cells
      invariant 0 <= i <= 8 * bitmap.Length && At(o, mask, i)
      invariant forall k | 0 <= k < i :: !FreeRun(bits, k, size)
    {
      Position(o, mask, i);
      TestedBit(bits, o, mask, i);
      var bit := Test(bitmap[o], mask);
      var j := i + 1;
      NextBit(o, mask, i);
      mask := Rotate(mask);
      o := o + Carry(mask);
      assert bits == bitmap[..];
      if bit {
        j, o, mask := SkipUsed(bitmap, cells, i, j, o, mask);
        assert bits == bitmap[..];
        NoRunInUsed(bits, i, j, size);
      } else {
        j, o, mask := SkipFree(bitmap, cells, size, i, j, o, mask);
        assert bits == bitmap[..];
        if j - i >= size {
          IsRun(bits, i, j, size);
          return i;
        }
        NoRunBefore(bits, cells, i, j, size);
      }
      i := j;
    }
    NoRunInUsed(bits, i, 8 * |bits|, size);
    NoRunPast(bits, size);
    return -1;
  }

  lemma StartAt()
    ensures At(0, 1, 0)
  {
  }

  lemma NoRunInUsed(bits: seq<bv8>, i: nat, j: nat, size: nat)
    requires i <= j <= 8 * |bits| && size >= 1 && forall k | i <= k < j :: Used(bits, k)
    ensures forall k | i <= k < j :: !FreeRun(bits, k, size)
  {
    hide Used;
    forall k | i <= k < j
      ensures !FreeRun(bits, k, size)
    {
      assert Used(bits, k);
    }
  }

  lemma NoRunPast(bits: seq<bv8>, size: nat)
    requires size >= 1
    ensures forall k | 8 * |bits| <= k :: !FreeRun(bits, k, size)
  {
    hide Used;
  }

  lemma IsRun(bits: seq<bv8>, i: nat, j: nat, size: nat)
    requires i + size <= j <= 8 * |bits| && forall k | i <= k < j :: !Used(bits, k)
    ensures FreeRun(bits, i, size)
  {
    hide Used;
  }

  /** Too few free cells before the next used one: no run starts among them. */
  lemma NoRunBefore(bits: seq<bv8>, cells: nat, i: nat, j: nat, size: nat)
    requires Padded(bits, cells) && i < j <= 8 * |bits| && j - i < size && (j >= cells || Used(bits, j))
    ensures forall k | i <= k < j :: !FreeRun(bits, k, size)
  {
    hide Used;
    forall k | i <= k < j
      ensures !FreeRun(bits, k, size)
    {
      if j < 8 * |bits| {
        assert Used(bits, j);
      }
    }
  }

  // ---- marking cells

  /** `size` bits from `index` on have become `value`; the others are as before. */
  predicate Marked(bits: seq<bv8>, was: seq<bv8>, index: nat, size: nat, value: bool) {
    |bits| == |was| && forall k | 0 <= k < 8 * |bits| :: Used(bits, k) == if index <= k < index + size then value else Used(was, k)
  }

  lemma ByteMarked(bits: seq<bv8>, was: seq<bv8>, all: seq<bv8>, index: nat, i: nat, value: bool)
    requires i % 8 == 0 && i / 8 < |was| && index <= i && Marked(was, all, index, i - index, value)
    requires bits == was[i / 8 := if value then 0xFF else 0]
    ensures Marked(bits, all, index, i + 8 - index, value)
  {
    forall k | 0 <= k < 8 * |bits|
      ensures Used(bits, k) == if index <= k < i + 8 then value else Used(all, k)
    {
      WholeBytes(k % 8);
      if k / 8 != i / 8 {
        assert Used(bits, k) == Used(was, k);
      }
    }
  }

  lemma BitMarked(bits: seq<bv8>, was: seq<bv8>, all: seq<bv8>, index: nat, i: nat, value: bool)
    requires i / 8 < |was| && index <= i && Marked(was, all, index, i - index, value)
    requires bits == was[i / 8 := if value then SetBit(was[i / 8], MaskAt(i % 8)) else ClearBit(was[i / 8], MaskAt(i % 8))]
    ensures Marked(bits, all, index, i + 1 - index, value)
  {
    forall k | 0 <= k < 8 * |bits|
      ensures Used(bits, k) == if index <= k < i + 1 then value else Used(all, k)
    {
      hide MaskAt, Test, SetBit, ClearBit;
      assert Used(was, k) == if index <= k < i then value else Used(all, k);
      BitSet(was[i / 8], i % 8, k % 8);
      BitCleared(was[i / 8], i % 8, k % 8);
    }
  }

  lemma NothingMarked(bits: seq<bv8>, index: nat, value: bool)
    ensures Marked(bits, bits, index, 0, value)
  {
    hide Used;
  }

  /** The loop of `Pool_Get_Cells` that marks the cells in use. */
  method TakeCells(bitmap: array<bv8>, index: nat, size: nat)
    requires index + size <= 8 * bitmap.Length
    modifies bitmap
    ensures Marked(bitmap[..], old(bitmap[..]), index, size, true)
  {
    hide Used, Marked, MaskAt, Rotate, Carry, SetBit, At;
    ghost var all := bitmap[..];
    var o: nat, mask, left: nat := index / 8, MaskAt(index % 8), size;
    ghost var i := index;
    ThisBit(index);
    NothingMarked(all, index, true);
    while left > 0
      invariant i + left == index + size && i >= index && At(o, mask, i)
      invariant Marked(bitmap[..], all, index, i - index, true)
      decreases left
    {
      Position(o, mask, i);
      ghost var was := bitmap[..];
      if mask == 1 && left > 8 {
        NextByte(o, mask, i);
        bitmap[o] := 0xFF;
        ByteMarked(bitmap[..], was, all, index, i, true);
        o := o + 1;
        left := left - 8;
        i := i + 8;
      } else {
        MaskIs(o, mask, i);
        NextBit(o, mask, i);
        bitmap[o] := SetBit(bitmap[o], mask);
        BitMarked(bitmap[..], was, all, index, i, true);
        mask := Rotate(mask);
        o := o + Carry(mask);
        left := left - 1;
        i := i + 1;
      }
    }
  }

  lemma ThisBit(i: nat)
    ensures At(i / 8, MaskAt(i % 8), i)
  {
  }

  lemma MaskIs(o: nat, mask: bv32, i: nat)
    requires At(o, mask, i)
    ensures mask == MaskAt(i % 8)
  {
  }

  /** The loop of `Pool_Free_Cells` that marks the cells free. */
  method ReleaseCells(bitmap: array<bv8>, index: nat, size: nat)
    requires index + size <= 8 * bitmap.Length
    modifies bitmap
    ensures Marked(bitmap[..], old(bitmap[..]), index, size, false)
  {
    hide Used, Marked, MaskAt, Rotate, Carry, ClearBit, At;
    ghost var all := bitmap[..];
    var o: nat, mask, left: nat := index / 8, MaskAt(index % 8), size;
    ghost var i := index;
    ThisBit(index);
    NothingMarked(all, index, false);
    while left > 0
      invariant i + left == index + size && i >= index && At(o, mask, i)
      invariant Marked(bitmap[..], all, index, i - index, false)
      decreases left
    {
      Position(o, mask, i);
      ghost var was := bitmap[..];
      if mask == 1 && left > 8 {
        NextByte(o, mask, i);
        bitmap[o] := 0;
        ByteMarked(bitmap[..], was, all, index, i, false);
        o := o + 1;
        left := left - 8;
        i := i + 8;
      } else {
        MaskIs(o, mask, i);
        NextBit(o, mask, i);
        bitmap[o] := ClearBit(bitmap[o], mask);
        BitMarked(bitmap[..], was, all, index, i, false);
        mask := Rotate(mask);
        o := o + Carry(mask);
        left := left - 1;
        i := i + 1;
      }
    }
  }

  /** The bitmap of a page without blocks: just the padding bits are set. */
  method InitialBitmap(bitmap: array<bv8>, cells: nat)
    requires cells <= 8 * bitmap.Length
    modifies bitmap
    ensures forall k | 0 <= k < 8 * bitmap.Length :: Used(bitmap[..], k) <==> k >= cells
  {
    hide Used, Marked, SetBit;
    var n := 0;
    while n < bitmap.Length
      invariant 0 <= n <= bitmap.Length
      invariant forall k | 0 <= k < n :: bitmap[k] == 0
    {
      bitmap[n] := 0;
      n := n + 1;
    }
    ghost var all := bitmap[..];
    AllFree(all);
    NothingMarked(all, cells, true);
    var i := cells;
    while true
      invariant cells <= i <= 8 * bitmap.Length && Marked(bitmap[..], all, cells, i - cells, true)
      decreases 8 * bitmap.Length - i
    {
      var ofs, bit := i / 8, MaskAt(i % 8);
      MaskRotates(i % 8);
      hide MaskAt;
      if ofs >= bitmap.Length {
        break;
      }
      ghost var was := bitmap[..];
      if bit == 1 {
        bitmap[ofs] := 0xFF;
        ByteMarked(bitmap[..], was, all, cells, i, true);
        i := i + 8;
      } else {
        bitmap[ofs] := SetBit(bitmap[ofs], bit);
        BitMarked(bitmap[..], was, all, cells, i, true);
        i := i + 1;
      }
    }
    JustPadding(bitmap[..], all, cells, i);
  }

  lemma AllFree(bits: seq<bv8>)
    requires forall k | 0 <= k < |bits| :: bits[k] == 0
    ensures forall k | 0 <= k < 8 * |bits| :: !Used(bits, k)
  {
    forall k | 0 <= k < 8 * |bits|
      ensures !Used(bits, k)
    {
      WholeBytes(k % 8);
    }
  }

  lemma JustPadding(bits: seq<bv8>, all: seq<bv8>, cells: nat, i: nat)
    requires cells <= i == 8 * |bits| && Marked(bits, all, cells, i - cells, true)
    requires forall k | 0 <= k < 8 * |all| :: !Used(all, k)
    ensures forall k | 0 <= k < 8 * |bits| :: Used(bits, k) <==> k >= cells
  {
    hide Used;
  }

  // ---- counting

  /** How many of the cells from `lo` up to `hi` are in use. */
  function UsedCount(bits: seq<bv8>, lo: nat, hi: nat): (n: nat)
    requires hi <= 8 * |bits|
    ensures lo <= hi ==> n <= hi - lo
  {
    if lo >= hi then 0 else UsedCount(bits, lo, hi - 1) + if Used(bits, hi - 1) then 1 else 0
  }

  lemma {:induction false} CountSplit(bits: seq<bv8>, lo: nat, mid: nat, hi: nat)
    requires lo <= mid <= hi <= 8 * |bits|
    ensures UsedCount(bits, lo, hi) == UsedCount(bits, lo, mid) + UsedCount(bits, mid, hi)
  {
    hide Used;
    if mid < hi {
      CountSplit(bits, lo, mid, hi - 1);
    }
  }

  lemma {:induction false} CountSame(bits: seq<bv8>, was: seq<bv8>, lo: nat, hi: nat)
    requires |bits| == |was| && hi <= 8 * |bits| && forall k | lo <= k < hi :: Used(bits, k) == Used(was, k)
    ensures UsedCount(bits, lo, hi) == UsedCount(was, lo, hi)
  {
    hide Used;
    if lo < hi {
      CountSame(bits, was, lo, hi - 1);
    }
  }

  lemma {:induction false} CountAll(bits: seq<bv8>, lo: nat, hi: nat, value: bool)
    requires lo <= hi <= 8 * |bits| && forall k | lo <= k < hi :: Used(bits, k) == value
    ensures UsedCount(bits, lo, hi) == if value then hi - lo else 0
  {
    hide Used;
    if lo < hi {
      CountAll(bits, lo, hi - 1, value);
    }
  }

  /** Marking cells that all were the other way changes the count by just their number. */
  lemma MarkedCount(bits: seq<bv8>, was: seq<bv8>, index: nat, size: nat, value: bool, lo: nat, hi: nat)
    requires Marked(bits, was, index, size, value) && lo <= index && index + size <= hi <= 8 * |bits|
    requires forall k | index <= k < index + size :: Used(was, k) != value
    ensures UsedCount(bits, lo, hi) == UsedCount(was, lo, hi) + if value then size else -(size as int)
  {
    hide Used, UsedCount;
    CountSplit(bits, lo, index, hi);
    CountSplit(bits, index, index + size, hi);
    CountSplit(was, lo, index, hi);
    CountSplit(was, index, index + size, hi);
    CountSame(bits, was, lo, index);
    CountSame(bits, was, index + size, hi);
    CountAll(bits, index, index + size, value);
    CountAll(was, index, index + size, !value);
  }
}
