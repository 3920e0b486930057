/** When each heap operation succeeds, and what it does then, in the terms of the cells and the table. */
module HeapExact {
  import opened Memory
  import opened CellMap
  import opened TissueHeap
  import opened HeapRuns

  /** The leftmost run of n free cells starts at s. */
  ghost predicate Leftmost(cells: seq<bool>, s: nat, n: nat) {
    FreeRun(cells, s, n) && forall t :: 0 <= t < s ==> !FreeRun(cells, t, n)
  }

  lemma FindRunIsLeftmost(cells: seq<bool>, n: nat)
    ensures var s := FindRun(cells, n, 0);
            if s == -1 then forall t: nat :: !FreeRun(cells, t, n) else 0 <= s && Leftmost(cells, s, n)
  {
  }

  lemma LeftmostIsOne(cells: seq<bool>, s: nat, t: nat, n: nat)
    requires Leftmost(cells, s, n) && Leftmost(cells, t, n)
    ensures s == t
  {
  }

  /** A request returns NULL if and only if the table is full, the replica count is not 1 to 4, no cell is asked
      for, no run of the needed length is free, or the base is 0 and the leftmost such run starts at cell 0. */
  lemma MallocNullExact(h: Heap, origin: nat, size: nat, replicas: nat)
    ensures var needed := CellsNeeded((size * replicas) % 0x1_0000_0000_0000_0000);
            Malloc(h, origin, size, replicas).1 == 0
            <==> || |h.table| >= 256
                 || !(1 <= replicas <= 4)
                 || needed == 0
                 || (forall s: nat :: !FreeRun(h.cells, s, needed))
                 || (origin == 0 && Leftmost(h.cells, 0, needed))
  {
    var bytes := (size * replicas) % 0x1_0000_0000_0000_0000;
    var needed := CellsNeeded(bytes);
    FindRunIsLeftmost(h.cells, needed);
    NullExact(h.cells, origin, bytes);
    hide FreeRun, CellsNeeded, FindRun;
    if Leftmost(h.cells, 0, needed) && FindRun(h.cells, needed, 0) != -1 {
      LeftmostIsOne(h.cells, 0, FindRun(h.cells, needed, 0), needed);
    }
  }

  /** Any other request gets the leftmost run: exactly its cells become owned, its address is returned and a new
      entry records the request. */
  lemma MallocTakesLeftmost(h: Heap, origin: nat, size: nat, replicas: nat) returns (s: nat)
    requires Malloc(h, origin, size, replicas).1 != 0
    ensures var needed := CellsNeeded((size * replicas) % 0x1_0000_0000_0000_0000);
            var (h', address) := Malloc(h, origin, size, replicas);
            && Leftmost(h.cells, s, needed) && address == origin + s * 4096
            && |h'.cells| == |h.cells| && h'.bytes == h.bytes
            && (forall c :: 0 <= c < |h.cells| ==> (h'.cells[c] <==> h.cells[c] || s <= c < s + needed))
            && h'.table == h.table + [Allocation(address, size, replicas, 0, 0)]
  {
    var bytes := (size * replicas) % 0x1_0000_0000_0000_0000;
    Taken(h.cells, origin, bytes);
    FindRunIsLeftmost(h.cells, CellsNeeded(bytes));
    hide FreeRun, CellsNeeded, FindRun;
    s := FindRun(h.cells, CellsNeeded(bytes), 0);
  }

  // ----- the other operations ------------------------------------------------

  /** The block at an address is entry i. */
  ghost predicate BlockAt(h: Heap, address: nat, i: int) {
    0 <= i < |h.table| && h.table[i].base == address
  }

  lemma FindExact(h: Heap, origin: nat, address: nat)
    requires ValidHeap(h, origin)
    ensures Find(h.table, address, 0) == -1 <==> forall i :: !BlockAt(h, address, i)
    ensures forall i :: BlockAt(h, address, i) ==> Find(h.table, address, 0) == i && address != 0
  {
    forall i | BlockAt(h, address, i)
      ensures Find(h.table, address, 0) == i && address != 0
    {
      FindFinds(h, origin, i);
      EntryBytes(h, origin, i);
    }
    var f := Find(h.table, address, 0);
    if f != -1 {
      assert BlockAt(h, address, f);
    }
  }

  /** Replication succeeds if and only if the address is that of a block and the data fit one replica; otherwise
      nothing changes. */
  lemma ReplicateExact(h: Heap, origin: nat, address: nat, data: seq<bv8>)
    requires ValidHeap(h, origin)
    ensures var (h', ok) := Replicate(h, origin, address, data);
            && (ok <==> exists i :: BlockAt(h, address, i) && |data| <= h.table[i].size)
            && (!ok ==> h' == h)
            && h'.cells == h.cells && h'.table == h.table
  {
    FindExact(h, origin, address);
    var f := Find(h.table, address, 0);
    hide ValidHeap, PutReplicas;
    if address != 0 && f != -1 {
      assert BlockAt(h, address, f);
    }
  }

  /** With at most four replicas the fastest one is always the first, at 80. */
  lemma FastestIsFirst(n: nat)
    requires 1 <= n <= 4
    ensures Fastest(n) == (0, 80)
  {
    assert Latency(0) == 80 && Latency(1) == 99 && Latency(2) == 118 && Latency(3) == 137;
    assert Fastest(1) == (0, 80);
    hide Latency;
    if n > 1 {
      FastestIsFirst(n - 1);
    }
  }

  /** A read succeeds if and only if the address is that of a block and one replica holds as many bytes; otherwise
      nothing changes. */
  lemma ReadExact(h: Heap, origin: nat, address: nat, n: nat)
    requires ValidHeap(h, origin)
    ensures var (h', out, ok) := Read(h, origin, address, n);
            && (ok <==> exists i :: BlockAt(h, address, i) && n <= h.table[i].size)
            && (!ok ==> h' == h && out == [])
  {
    FindExact(h, origin, address);
    var f := Find(h.table, address, 0);
    hide ValidHeap, Fastest;
    if address != 0 && f != -1 {
      assert BlockAt(h, address, f);
    }
  }

  /** It returns the beginning of the first replica and books one read of latency 80. */
  lemma ReadReturns(h: Heap, origin: nat, i: nat, n: nat)
    requires ValidHeap(h, origin) && i < |h.table| && n <= h.table[i].size
    ensures var a := h.table[i];
            && origin <= a.base && a.base - origin + n <= |h.bytes|
            && var (h', out, ok) := Read(h, origin, a.base, n);
               && ok && out == h.bytes[a.base - origin..a.base - origin + n]
               && h' == h.(table := h.table[i := a.(latencyTotal := (a.latencyTotal + 80) % 0x1_0000_0000_0000_0000,
                                                    readCount := (a.readCount + 1) % 0x1_0000_0000)])
  {
    FindFinds(h, origin, i);
    EntryBytes(h, origin, i);
    assert ValidAllocation(h.cells, origin, h.table[i]);
    FastestIsFirst(h.table[i].replicas);
    ReadInside(h, origin, h.table[i]);
    hide ValidHeap, ValidAllocation, Fastest;
  }

  /** Freeing an address that is not that of a block changes nothing; freeing a block removes its entry and no
      other. */
  lemma FreeExact(h: Heap, origin: nat, address: nat)
    requires ValidHeap(h, origin)
    ensures (forall i :: !BlockAt(h, address, i)) ==> Free(h, origin, address) == h
    ensures (exists i :: BlockAt(h, address, i)) ==>
              |Free(h, origin, address).table| == |h.table| - 1
              && forall a :: a in Free(h, origin, address).table <==> a in h.table && a.base != address
  {
    FindExact(h, origin, address);
    if i :| BlockAt(h, address, i) {
      FreeCells(h, origin, i);
      var t, t' := h.table, RemoveEntry(h.table, i);
      forall a
        ensures a in t' <==> a in t && a.base != address
      {
        if a in t && a.base != address {
          var j :| 0 <= j < |t| && t[j] == a;
          assert t'[if j == |t| - 1 then i else j] == a;
        }
        if a in t' {
          var k :| 0 <= k < |t'| && t'[k] == a;
          var j := if k == i then |t| - 1 else k;
          assert t[j] == a;
          BasesDiffer(h, origin, i, j);
        }
      }
    }
  }
}
