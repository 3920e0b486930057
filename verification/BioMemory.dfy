/** The cell allocator as it runs: a static bitmap changed bit by bit and the arena it governs
    (memory-baremetal/src/bio_alloc.c). Addresses are numbers, 0 is NULL. */
module BioMemory {
  import opened CellMap
  import opened TissueHeap

  /** What the single-cell scan has done after i cells. NULL doubles as "nothing allocated yet", so
      a free cell at address 0 is marked and the scan goes on to take a second one. */
  ghost predicate Scanned(before: seq<bool>, origin: nat, i: nat, cells: seq<bool>, address: nat)
    requires i <= |before|
  {
    var first := FirstFree(before, 0);
    if i <= first then cells == before && address == 0
    else if origin + first * CELL_SIZE != 0 then
      cells == before[first := true] && address == origin + first * CELL_SIZE
    else
      var second := FirstFree(before, first + 1);
      if i <= second then cells == before[first := true] && address == 0
      else cells == before[first := true][second := true] && address == origin + second * CELL_SIZE
  }

  lemma ScanStep(before: seq<bool>, origin: nat, i: nat, cells: seq<bool>, address: nat)
    requires i < |before| && Scanned(before, origin, i, cells, address)
    ensures |cells| == |before| && cells[i] == before[i]
    ensures before[i] ==> Scanned(before, origin, i + 1, cells, address)
    ensures !before[i] && address == 0 ==>
              Scanned(before, origin, i + 1, cells[i := true], origin + i * CELL_SIZE)
    ensures !before[i] && address != 0 ==> Scanned(before, origin, i + 1, cells, address)
  {
  }

  lemma {:induction false} SomeFree(cells: seq<bool>)
    ensures FreeCount(cells) > 0 <==> exists i :: 0 <= i < |cells| && !cells[i]
    ensures FreeCount(cells) > 1 <==> exists i, j :: 0 <= i < j < |cells| && !cells[i] && !cells[j]
  {
    if cells != [] {
      var init := cells[..|cells| - 1];
      SomeFree(init);
      assert forall k :: 0 <= k < |init| ==> init[k] == cells[k];
      if FreeCount(init) > 0 {
        var i :| 0 <= i < |init| && !init[i];
        assert !cells[i];
      }
      if FreeCount(init) > 1 {
        var i, j :| 0 <= i < j < |init| && !init[i] && !init[j];
        assert !cells[i] && !cells[j];
      }
    }
  }

  /** While a cell is free, a single-cell request takes exactly one if and only if it does not meet
      a free cell at address 0 with another free cell behind it. */
  lemma OneCellExact(before: seq<bool>, origin: nat, cells: seq<bool>, address: nat)
    requires FreeCount(before) > 0 && Scanned(before, origin, |before|, cells, address)
    ensures FreeCount(cells) == FreeCount(before) - 1
            <==> !(origin == 0 && !before[0] && FreeCount(before) > 1)
  {
    SomeFree(before);
    var first := FirstFree(before, 0);
    assert first < |before|;
    FreeCountClaim(before, first);
    if origin + first * CELL_SIZE == 0 {
      var second := FirstFree(before, first + 1);
      if second < |before| {
        FreeCountClaim(before[first := true], second);
        assert !before[0] && !before[second];
      } else {
        assert forall j :: 0 <= j < |before| && j != first ==> before[j];
      }
    }
  }

  class CellAllocator {
    const bitmap: array<bv8>
    const bytes: array<bv8>
    const origin: nat

    ghost predicate Valid()
      reads this, bitmap, bytes
    {
      && bitmap != bytes
      && bitmap.Length == CELLS / 8 && bytes.Length == ARENA
      && origin + ARENA <= U64
    }

    ghost function Cells(): (cells: seq<bool>)
      requires Valid()
      reads this, bitmap, bytes
      ensures |cells| == CELLS
    {
      Flags(bitmap[..])
    }

    /** `bio_mem_init` over the physical memory at `origin`. */
    constructor (origin: nat, bytes: array<bv8>)
      requires bytes.Length == ARENA && origin + ARENA <= U64
      ensures Valid() && fresh(bitmap) && this.bytes == bytes && this.origin == origin
      ensures Cells() == seq(CELLS, _ => false)
    {
      this.origin, this.bytes := origin, bytes;
      this.bitmap := new bv8[CELLS / 8](_ => 0);
      new;
      forall i | 0 <= i < CELLS
        ensures !TestBit(bitmap[..], i)
      {
        EmptyByte(i % 8);
      }
      assert Flags(bitmap[..]) == seq(CELLS, _ => false);
    }

    method SetBit(i: nat)
      requires Valid() && i < CELLS
      modifies bitmap
      ensures Valid() && Cells() == old(Cells())[i := true]
    {
      SetFlag(bitmap[..], i);
      bitmap[i / 8] := bitmap[i / 8] | Mask(i % 8);
      assert bitmap[..] == CellMap.SetBit(old(bitmap[..]), i);
    }

    method ClearBit(i: nat)
      requires Valid() && i < CELLS
      modifies bitmap
      ensures Valid() && Cells() == old(Cells())[i := false]
    {
      ClearFlag(bitmap[..], i);
      bitmap[i / 8] := bitmap[i / 8] & !Mask(i % 8);
      assert bitmap[..] == CellMap.ClearBit(old(bitmap[..]), i);
    }

    method TestBitAt(i: nat) returns (owned: bool)
      requires Valid() && i < CELLS
      ensures owned == Cells()[i]
    {
      owned := Bit(bitmap[i / 8], i % 8);
    }

    /** Lines 36-61. `pressure` says that the yellow low-memory globule is pumped. */
    method AllocateCell() returns (address: nat, pressure: bool)
      requires Valid()
      modifies bitmap
      ensures Valid() && Scanned(old(Cells()), origin, CELLS, Cells(), address)
      ensures pressure <==> FreeCount(Cells()) < CELLS / 20
    {
      var freeCount := 0;
      address := 0;
      ghost var before := Cells();
      assert Scanned(before, origin, 0, Cells(), 0) && FreeCount(Cells()[..0]) == 0;
      hide Scanned, FreeCount, Flags;
      for i := 0 to CELLS
        invariant Valid() && Scanned(before, origin, i, Cells(), address)
        invariant freeCount == FreeCount(Cells()[..i])
      {
        ScanStep(before, origin, i, Cells(), address);
        FreeCountSnoc(Cells(), i);
        var owned := TestBitAt(i);
        if !owned {
          if address == 0 {
            ghost var cells := Cells();
            SetBit(i);
            assert Cells()[..i] == cells[..i];
            FreeCountSnoc(Cells(), i);
            address := origin + i * CELL_SIZE;
          } else {
            freeCount := freeCount + 1;
          }
        }
      }
      assert Cells()[..CELLS] == Cells();
      pressure := freeCount < CELLS / 20;
    }

    /** Lines 63-71 */
    method FreeCell(address: nat)
      requires Valid()
      modifies bitmap
      ensures Valid()
      ensures Cells() == if address >= origin && CellOf(origin, address) < CELLS
                         then old(Cells())[CellOf(origin, address) := false] else old(Cells())
    {
      if address >= origin {
        var index := ((address - origin) / CELL_SIZE) % U32;
        if index < CELLS {
          ClearBit(index);
        }
      }
    }

    /** Lines 74-101: the leftmost run of free cells of the needed length, or NULL. */
    method AllocateNeuralTissue(size: nat) returns (address: nat)
      requires Valid()
      modifies bitmap
      ensures Valid() && (Cells(), address) == AllocateTissue(old(Cells()), origin, size)
    {
      var needed := (((size + CELL_SIZE - 1) % U64) / CELL_SIZE) % U32;
      var start := SearchRun(needed);
      if start == -1 {
        return 0;
      }
      MarkRun(start, needed);
      return origin + start * CELL_SIZE;
    }

    /** The search loop, lines 77-99. A length of zero is never reached. */
    method SearchRun(needed: nat) returns (start: int)
      requires Valid()
      ensures start == if needed == 0 then -1 else FindRun(Cells(), needed, 0)
    {
      var count := 0;
      start := 0;
      for i := 0 to CELLS
        invariant 0 <= count <= i && (count > 0 ==> start == i - count)
        invariant needed > 0 ==> count < needed && NoRunBefore(Cells(), needed, count, i)
      {
        var owned := TestBitAt(i);
        if needed > 0 {
          Advanced(Cells(), needed, count, i);
        }
        if !owned {
          if count == 0 {
            start := i;
          }
          count := count + 1;
          if count == needed {
            return;
          }
        } else {
          count := 0;
        }
      }
      return -1;
    }

    /** Lines 87-89 */
    method MarkRun(start: nat, n: nat)
      requires Valid() && start + n <= CELLS
      modifies bitmap
      ensures Valid() && Cells() == Mark(old(Cells()), start, n, true)
    {
      ghost var before := Cells();
      assert Mark(before, start, 0, true) == before;
      for j := start to start + n
        invariant Valid() && Cells() == Mark(before, start, j - start, true)
      {
        SetBit(j);
        assert Mark(before, start, j + 1 - start, true) == Mark(before, start, j - start, true)[j := true];
      }
    }

    /** Lines 104-121 */
    method PurgeInfectedTissue(address: nat, size: nat)
      requires Valid()
      modifies bitmap, bytes
      ensures Valid() && (Cells(), bytes[..]) == Purge(old(Cells()), old(bytes[..]), origin, address, size)
    {
      if address < origin {
        return;
      }
      var start := ((address - origin) / CELL_SIZE) % U32;
      var end := (start + (((size + CELL_SIZE - 1) % U64) / CELL_SIZE) % U32) % U32;
      ghost var cells, content := Cells(), bytes[..];
      var i := start;
      assert Mark(cells, start, 0, false) == cells && Zeroed(content, start, start) == content;
      while i < end
        invariant start <= i && (start <= end ==> i <= end) && (end < start ==> i == start)
        invariant Valid() && Cells() == Mark(cells, start, i - start, false)
        invariant bytes[..] == Zeroed(content, start, i)
      {
        if i < CELLS {
          ZeroCell(i);
          ClearBit(i);
        }
        PurgeStep(cells, content, start, i);
        i := i + 1;
      }
      assert end < start ==> Mark(cells, start, end - start, false) == cells && Zeroed(content, start, end) == content;
    }

    /** Lines 114-117 */
    method ZeroCell(i: nat)
      requires Valid() && i < CELLS
      modifies bytes
      ensures bytes[..] == Zeroed(old(bytes[..]), i, i + 1)
    {
      for b := 0 to CELL_SIZE
        invariant forall k :: 0 <= k < bytes.Length ==>
                    bytes[k] == if i * CELL_SIZE <= k < i * CELL_SIZE + b then 0 else old(bytes[k])
      {
        bytes[i * CELL_SIZE + b] := 0;
      }
      forall k | 0 <= k < bytes.Length
        ensures i <= k / CELL_SIZE < i + 1 <==> i * CELL_SIZE <= k < i * CELL_SIZE + CELL_SIZE
      {
      }
    }
  }

  lemma EmptyByte(k: nat)
    requires k < 8
    ensures !Bit(0, k)
  {
  }

  /** The last `count` cells before i are a maximal stretch of free cells, and no run of n free
      cells ends at or before i. */
  ghost predicate NoRunBefore(cells: seq<bool>, n: nat, count: nat, i: nat)
    requires i <= |cells|
  {
    && count <= i
    && (forall j :: i - count <= j < i ==> !cells[j])
    && (i - count == 0 || cells[i - count - 1])
    && (forall s :: 0 <= s && s + n <= i ==> !FreeRun(cells, s, n))
  }

  lemma Advanced(cells: seq<bool>, n: nat, count: nat, i: nat)
    requires n > 0 && i < |cells| && count < n && NoRunBefore(cells, n, count, i)
    ensures cells[i] ==> NoRunBefore(cells, n, 0, i + 1)
    ensures !cells[i] && count + 1 < n ==> NoRunBefore(cells, n, count + 1, i + 1)
    ensures !cells[i] && count + 1 == n ==> FindRun(cells, n, 0) == i - count
    ensures i + 1 == |cells| && (cells[i] || count + 1 < n) ==> FindRun(cells, n, 0) == -1
  {
    if cells[i] || count + 1 < n {
      forall s | 0 <= s && s + n <= i + 1
        ensures !FreeRun(cells, s, n)
      {
        if s + n == i + 1 {
          assert cells[i] || s <= i - count - 1;
        }
      }
      if i + 1 == |cells| {
        assert forall s: nat :: !FreeRun(cells, s, n);
      }
    } else {
      assert FreeRun(cells, i - count, n);
      assert forall s :: 0 <= s < i - count ==> !FreeRun(cells, s, n);
    }
  }

  lemma PurgeStep(cells: seq<bool>, bytes: seq<bv8>, start: nat, i: nat)
    requires start <= i && |cells| == CELLS && |bytes| == ARENA
    ensures Mark(cells, start, i + 1 - start, false)
            == if i < CELLS then Mark(cells, start, i - start, false)[i := false]
               else Mark(cells, start, i - start, false)
    ensures Zeroed(bytes, start, i + 1)
            == if i < CELLS then Zeroed(Zeroed(bytes, start, i), i, i + 1) else Zeroed(bytes, start, i)
  {
  }
}
