/** Freeing undoes allocating, for single cells and for tissue. */
module BioLaws {
  import opened CellMap
  import opened TissueHeap
  import opened BioMemory
  import opened HeapRuns

  lemma IndexOf(origin: nat, i: nat)
    requires i < CELLS
    ensures CellOf(origin, origin + i * 4096) == i
  {
  }

  /** A single-cell request above base 0 that returns an address has taken the first free cell, whose address it is,
      and nothing else; freeing that address restores the map. NULL means that no cell was free. */
  lemma CellRoundTrip(before: seq<bool>, origin: nat, cells: seq<bool>, address: nat)
    requires |before| == CELLS && origin > 0 && Scanned(before, origin, |before|, cells, address)
    ensures address == 0 <==> forall i :: 0 <= i < CELLS ==> before[i]
    ensures address == 0 ==> cells == before
    ensures address != 0 ==>
              && origin <= address && (address - origin) % 4096 == 0
              && var i := CellOf(origin, address);
                 && i == (address - origin) / 4096 < 102_400
                 && !before[i] && (forall j :: 0 <= j < i ==> before[j])
                 && cells == before[i := true] && cells[i := false] == before
  {
    var first := FirstFree(before, 0);
    if first < CELLS {
      IndexOf(origin, first);
      assert cells[first := false] == before;
    }
  }

  /** A tissue request that returns an address can be undone: purging that address with the same size gives the
      cells back, and no others. */
  lemma TissueRoundTrip(cells: seq<bool>, bytes: seq<bv8>, origin: nat, size: nat)
    requires |cells| == CELLS && AllocateTissue(cells, origin, size).1 != 0
    ensures var (cells', address) := AllocateTissue(cells, origin, size);
            Purge(cells', bytes, origin, address, size).0 == cells
  {
    Taken(cells, origin, size);
    var needed := CellsNeeded(size);
    var start := FindRun(cells, needed, 0);
    IndexOf(origin, start);
    HeapRuns.Small(start + needed);
    hide FindRun, CellsNeeded;
  }
}
