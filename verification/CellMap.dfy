/** The cell bitmap of memory-baremetal/src/bio_alloc.c and what it stands for: one
    ownership flag per 4 KiB cell. */
module CellMap {

  const CELLS: int := 102400
  const CELL_SIZE: int := 4096
  const U32: int := 0x1_0000_0000
  const U64: int := 0x1_0000_0000_0000_0000

  // ----- bits of one byte ----------------------------------------------------

  /** `1 << (index % 8)`, written out; see MaskIsShift. */
  function Mask(k: nat): bv8
    requires k < 8
  {
    match k
    case 0 => 1
    case 1 => 2
    case 2 => 4
    case 3 => 8
    case 4 => 16
    case 5 => 32
    case 6 => 64
    case _ => 128
  }

  lemma MaskIsShift()
    ensures Mask(0) == (1 as bv8) << 0 && Mask(1) == (1 as bv8) << 1
    ensures Mask(2) == (1 as bv8) << 2 && Mask(3) == (1 as bv8) << 3
    ensures Mask(4) == (1 as bv8) << 4 && Mask(5) == (1 as bv8) << 5
    ensures Mask(6) == (1 as bv8) << 6 && Mask(7) == (1 as bv8) << 7
  {
  }

  predicate Bit(b: bv8, k: nat)
    requires k < 8
  {
    b & Mask(k) != 0
  }

  lemma Masks(k: nat, j: nat)
    requires k < 8 && j < 8
    ensures Mask(k) != 0
    ensures k != j ==> Mask(k) & Mask(j) == 0
  {
  }

  lemma OwnBit(b: bv8, m: bv8)
    requires m != 0
    ensures (b | m) & m != 0
    ensures (b & !m) & m == 0
  {
  }

  lemma OtherBit(b: bv8, m: bv8, n: bv8)
    requires m & n == 0
    ensures (b | m) & n == b & n
    ensures (b & !m) & n == b & n
  {
  }

  lemma OwnMask(b: bv8, k: nat)
    requires k < 8
    ensures Bit(b | Mask(k), k) && !Bit(b & !Mask(k), k)
  {
    Masks(k, k);
    hide Mask;
    OwnBit(b, Mask(k));
  }

  lemma OtherMask(b: bv8, k: nat, j: nat)
    requires k < 8 && j < 8 && k != j
    ensures Bit(b | Mask(k), j) == Bit(b, j) == Bit(b & !Mask(k), j)
  {
    Masks(k, j);
    BitIs(b | Mask(k), j);
    BitIs(b & !Mask(k), j);
    BitIs(b, j);
    hide Mask, Bit;
    OtherBit(b, Mask(k), Mask(j));
  }

  lemma BitIs(b: bv8, k: nat)
    requires k < 8
    ensures Bit(b, k) <==> b & Mask(k) != 0
  {
  }

  /** Setting or clearing one bit changes that bit only. */
  lemma BitAfter(b: bv8, k: nat, j: nat)
    requires k < 8 && j < 8
    ensures Bit(b | Mask(k), j) <==> j == k || Bit(b, j)
    ensures Bit(b & !Mask(k), j) <==> j != k && Bit(b, j)
  {
    hide Bit, Mask;
    if k == j {
      OwnMask(b, k);
    } else {
      OtherMask(b, k, j);
    }
  }

  // ----- the packed map ------------------------------------------------------

  predicate TestBit(bitmap: seq<bv8>, i: nat)
    requires i < 8 * |bitmap|
  {
    Bit(bitmap[i / 8], i % 8)
  }

  /** The flags a bitmap packs. */
  function Flags(bitmap: seq<bv8>): (flags: seq<bool>)
    ensures |flags| == 8 * |bitmap|
    ensures forall i :: 0 <= i < |flags| ==> flags[i] == TestBit(bitmap, i)
  {
    seq(8 * |bitmap|, i requires 0 <= i < 8 * |bitmap| => TestBit(bitmap, i))
  }

  lemma SamePlace(i: nat, j: nat)
    ensures j / 8 == i / 8 && j % 8 == i % 8 <==> j == i
  {
  }

  function SetBit(bitmap: seq<bv8>, i: nat): seq<bv8>
    requires i < 8 * |bitmap|
  {
    bitmap[i / 8 := bitmap[i / 8] | Mask(i % 8)]
  }

  function ClearBit(bitmap: seq<bv8>, i: nat): seq<bv8>
    requires i < 8 * |bitmap|
  {
    bitmap[i / 8 := bitmap[i / 8] & !Mask(i % 8)]
  }

  lemma TestAfterSet(bitmap: seq<bv8>, i: nat, j: nat)
    requires i < 8 * |bitmap| && j < 8 * |bitmap|
    ensures TestBit(SetBit(bitmap, i), j) <==> j == i || TestBit(bitmap, j)
  {
    var b, b' := bitmap[i / 8], SetBit(bitmap, i)[i / 8];
    SamePlace(i, j);
    if j / 8 == i / 8 {
      BitAfter(b, i % 8, j % 8);
      assert Bit(b', j % 8) <==> j == i || Bit(b, j % 8);
    } else {
      assert SetBit(bitmap, i)[j / 8] == bitmap[j / 8];
    }
  }

  lemma TestAfterClear(bitmap: seq<bv8>, i: nat, j: nat)
    requires i < 8 * |bitmap| && j < 8 * |bitmap|
    ensures TestBit(ClearBit(bitmap, i), j) <==> j != i && TestBit(bitmap, j)
  {
    var b, b' := bitmap[i / 8], ClearBit(bitmap, i)[i / 8];
    SamePlace(i, j);
    if j / 8 == i / 8 {
      BitAfter(b, i % 8, j % 8);
      assert Bit(b', j % 8) <==> j != i && Bit(b, j % 8);
    } else {
      assert ClearBit(bitmap, i)[j / 8] == bitmap[j / 8];
    }
  }

  lemma SetFlag(bitmap: seq<bv8>, i: nat)
    requires i < 8 * |bitmap|
    ensures Flags(SetBit(bitmap, i)) == Flags(bitmap)[i := true]
  {
    forall j | 0 <= j < 8 * |bitmap|
      ensures TestBit(SetBit(bitmap, i), j) <==> j == i || TestBit(bitmap, j)
    {
      TestAfterSet(bitmap, i, j);
    }
  }

  lemma ClearFlag(bitmap: seq<bv8>, i: nat)
    requires i < 8 * |bitmap|
    ensures Flags(ClearBit(bitmap, i)) == Flags(bitmap)[i := false]
  {
    forall j | 0 <= j < 8 * |bitmap|
      ensures TestBit(ClearBit(bitmap, i), j) <==> j != i && TestBit(bitmap, j)
    {
      TestAfterClear(bitmap, i, j);
    }
  }

  // ----- cells ---------------------------------------------------------------

  function FreeCount(cells: seq<bool>): nat {
    if cells == [] then 0
    else FreeCount(cells[..|cells| - 1]) + if cells[|cells| - 1] then 0 else 1
  }

  /** The first free cell at or after `from`, or the end. */
  function FirstFree(cells: seq<bool>, from: nat): (i: nat)
    requires from <= |cells|
    ensures from <= i <= |cells|
    ensures i < |cells| ==> !cells[i]
    ensures forall j :: from <= j < i ==> cells[j]
    decreases |cells| - from
  {
    if from == |cells| || !cells[from] then from else FirstFree(cells, from + 1)
  }

  predicate FreeRun(cells: seq<bool>, start: nat, n: nat) {
    start + n <= |cells| && forall i :: start <= i < start + n ==> !cells[i]
  }

  /** The leftmost run of n free cells that starts at or after `from`. */
  function FindRun(cells: seq<bool>, n: nat, from: nat): (start: int)
    requires from <= |cells|
    ensures start == -1 <==> forall s :: from <= s ==> !FreeRun(cells, s, n)
    ensures start != -1 ==> from <= start && FreeRun(cells, start, n)
    ensures start != -1 ==> forall s :: from <= s < start ==> !FreeRun(cells, s, n)
    decreases |cells| - from
  {
    if FreeRun(cells, from, n) then from
    else if from == |cells| then -1
    else FindRun(cells, n, from + 1)
  }

  function Mark(cells: seq<bool>, start: int, n: int, owned: bool): (cells': seq<bool>)
    ensures |cells'| == |cells|
    ensures forall i :: 0 <= i < |cells| ==> cells'[i] == if start <= i < start + n then owned else cells[i]
  {
    seq(|cells|, i requires 0 <= i < |cells| => if start <= i < start + n then owned else cells[i])
  }

  /** `(size_in_bytes + CELL_SIZE - 1) / CELL_SIZE` in size_t arithmetic, stored in a uint32_t. */
  function CellsNeeded(size: nat): nat {
    (((size + CELL_SIZE - 1) % U64) / CELL_SIZE) % U32
  }

  /** The cells cover the bytes asked for exactly when the cell count fits in 32 bits. */
  lemma CoverExact(size: nat)
    requires size < U64
    ensures CellsNeeded(size) * 4096 >= size <==> size <= 0xffff_ffff * 4096
    ensures size <= 0xffff_ffff * 4096 ==> CellsNeeded(size) * 4096 < size + 4096
  {
    var n := CellsNeeded(size);
    if size <= (U32 - 1) * CELL_SIZE {
      assert (size + CELL_SIZE - 1) % U64 == size + CELL_SIZE - 1;
      assert (size + CELL_SIZE - 1) / CELL_SIZE < U32;
      assert n == (size + CELL_SIZE - 1) / CELL_SIZE;
    } else {
      assert n <= U32 - 1;
    }
  }

  lemma {:induction false} FreeCountSnoc(cells: seq<bool>, i: nat)
    requires i < |cells|
    ensures FreeCount(cells[..i + 1]) == FreeCount(cells[..i]) + if cells[i] then 0 else 1
  {
    assert cells[..i + 1][..i] == cells[..i];
  }

  /** Claiming one free cell lowers the number of free cells by one. */
  lemma {:induction false} FreeCountClaim(cells: seq<bool>, i: nat)
    requires i < |cells| && !cells[i]
    ensures FreeCount(cells[i := true]) == FreeCount(cells) - 1
  {
    var last := |cells| - 1;
    if i == last {
      assert cells[i := true][..last] == cells[..last];
    } else {
      assert cells[i := true][..last] == cells[..last][i := true];
      FreeCountClaim(cells[..last], i);
    }
  }
}
