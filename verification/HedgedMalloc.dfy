/** The hedged allocator as it runs: a static table of 256 entries over the cell allocator
    (memory-baremetal/src/hedged_malloc.c), proved against TissueHeap. */
module HedgedMalloc {
  import opened Memory
  import opened CellMap
  import opened TissueHeap
  import opened BioMemory
  import opened HeapRuns

  class HedgedHeap {
    const memory: CellAllocator
    const allocations: array<Allocation>
    var allocationCount: nat

    ghost predicate Valid()
      reads this, allocations, memory, memory.bitmap, memory.bytes
    {
      Wired() && ValidHeap(View(), memory.origin)
    }

    /** The storage behind the heap, whatever it holds. */
    ghost predicate Wired()
      reads this, memory, memory.bitmap, memory.bytes
    {
      && memory.Valid() && allocations.Length == TABLE_LIMIT && allocationCount <= TABLE_LIMIT
      && allocations as object != memory.bitmap && allocations as object != memory.bytes
    }

    ghost function View(): Heap
      requires Wired()
      reads this, allocations, memory, memory.bitmap, memory.bytes
    {
      Heap(memory.Cells(), memory.bytes[..], allocations[..allocationCount])
    }

    constructor (memory: CellAllocator)
      requires memory.Valid()
      ensures Valid() && this.memory == memory && fresh(allocations)
      ensures View() == Heap(memory.Cells(), memory.bytes[..], [])
    {
      this.memory := memory;
      allocations := new Allocation[TABLE_LIMIT](_ => Allocation(0, 0, 0, 0, 0));
      allocationCount := 0;
    }

    /** Lines 30-53. The new heap is valid when the request's cell count fits in 32 bits. */
    method Malloc(size: nat, replicas: nat) returns (address: nat)
      requires Valid()
      modifies this, allocations, memory.bitmap
      ensures Wired()
      ensures (View(), address) == TissueHeap.Malloc(old(View()), memory.origin, size, replicas)
      ensures size * replicas <= (CellMap.U32 - 1) * CELL_SIZE ==> Valid()
    {
      if size * replicas <= (CellMap.U32 - 1) * CELL_SIZE {
        MallocKeepsHeap(View(), memory.origin, size, replicas);
      }
      if allocationCount >= TABLE_LIMIT {
        return 0;
      }
      if replicas == 0 || replicas > REPLICA_LIMIT {
        return 0;
      }
      var block := memory.AllocateNeuralTissue((size * replicas) % U64);
      if block == 0 {
        return 0;
      }
      allocations[allocationCount] := Allocation(block, size, replicas, 0, 0);
      allocationCount := allocationCount + 1;
      assert View().table == old(View()).table + [Allocation(block, size, replicas, 0, 0)];
      return block;
    }

    /** The table scan shared by lines 63-69, 104-110 and 171-182. */
    method FindEntry(address: nat) returns (i: int)
      requires Valid()
      ensures i == Find(View().table, address, 0)
    {
      i := 0;
      while i < allocationCount
        invariant 0 <= i <= allocationCount
        invariant Find(View().table, address, 0) == Find(View().table, address, i)
      {
        if allocations[i].base == address {
          return;
        }
        i := i + 1;
      }
      return -1;
    }

    /** Lines 58-84 */
    method ReplicateData(address: nat, data: seq<bv8>) returns (ok: bool)
      requires Valid()
      modifies memory.bytes
      ensures Valid() && (View(), ok) == Replicate(old(View()), memory.origin, address, data)
    {
      if address == 0 {
        return false;
      }
      var i := FindEntry(address);
      if i == -1 {
        return false;
      }
      if |data| > allocations[i].size {
        return false;
      }
      assert View().table[i] == allocations[i];
      ReplicateUnfolds(View(), memory.origin, address, i, data);
      CopyToReplicas(allocations[i], data);
      return true;
    }

    /** The loop over the replicas, lines 78-81 */
    method CopyToReplicas(a: Allocation, data: seq<bv8>)
      requires memory.Valid() && memory.origin <= a.base && |data| <= a.size
      requires a.base - memory.origin + a.replicas * a.size <= ARENA
      modifies memory.bytes
      ensures memory.Valid()
      ensures memory.bytes[..] == PutReplicas(old(memory.bytes[..]), a.base - memory.origin, a.size, a.replicas, data)
    {
      ghost var before := memory.bytes[..];
      var at := a.base - memory.origin;
      for r := 0 to a.replicas
        invariant Copied(before, at, a.size, r, data, memory.bytes[..])
      {
        CopiedStep(before, at, a.size, r, a.replicas, data, memory.bytes[..]);
        CopyIn(at + r * a.size, data);
      }
    }

    /** `memcpy` into the arena */
    method CopyIn(at: nat, data: seq<bv8>)
      requires at + |data| <= memory.bytes.Length
      modifies memory.bytes
      ensures memory.bytes[..] == Put(old(memory.bytes[..]), at, data)
    {
      for k := 0 to |data|
        invariant forall j :: 0 <= j < memory.bytes.Length ==>
                    memory.bytes[j] == if at <= j < at + k then data[j - at] else old(memory.bytes[j])
      {
        memory.bytes[at + k] := data[k];
      }
    }

    /** The scan for the fastest replica, lines 119-128 */
    method FastestReplica(replicas: nat) returns (best: nat, latency: nat)
      ensures (best, latency) == Fastest(replicas)
    {
      best, latency := 0, 0xffff_ffff;
      for r := 0 to replicas
        invariant (best, latency) == Fastest(r)
      {
        var l := Latency(r);
        if l < latency {
          best, latency := r, l;
        }
      }
    }

    /** Lines 99-137 */
    method HedgedRead(address: nat, n: nat) returns (out: seq<bv8>, ok: bool)
      requires Valid()
      modifies allocations
      ensures Valid()
      ensures (View(), out, ok) == Read(old(View()), memory.origin, address, n)
    {
      if address == 0 {
        return [], false;
      }
      var i := FindEntry(address);
      if i == -1 {
        return [], false;
      }
      if n > allocations[i].size {
        return [], false;
      }
      assert View().table[i] == allocations[i];
      ReadUnfolds(View(), memory.origin, address, i, n);
      out := ReadEntry(i, n);
      return out, true;
    }

    /** Lines 119-134 */
    method ReadEntry(i: nat, n: nat) returns (out: seq<bv8>)
      requires Wired() && i < allocationCount
      requires 0 <= ReadAt(memory.origin, allocations[i]) && ReadAt(memory.origin, allocations[i]) + n <= ARENA
      modifies allocations
      ensures Wired()
      ensures var a := old(allocations[i]);
              && out == memory.bytes[ReadAt(memory.origin, a)..ReadAt(memory.origin, a) + n]
              && View() == old(View()).(table := old(View()).table[i := Recorded(a)])
    {
      var a := allocations[i];
      var best, latency := FastestReplica(a.replicas);
      var at := a.base - memory.origin + best * a.size;
      out := memory.bytes[at..at + n];
      ghost var table := View().table;
      allocations[i] := a.(latencyTotal := (a.latencyTotal + latency) % CellMap.U64,
                           readCount := (a.readCount + 1) % CellMap.U32);
      assert View().table == table[i := allocations[i]];
    }

    /** Lines 166-183 */
    method HedgedFree(address: nat)
      requires Valid()
      modifies this, allocations, memory.bitmap, memory.bytes
      ensures Valid()
      ensures View() == Free(old(View()), memory.origin, address)
    {
      if address == 0 {
        return;
      }
      var i := FindEntry(address);
      if i == -1 {
        return;
      }
      ghost var h := View();
      Release(i);
      FreeKeepsHeap(h, memory.origin, i);
    }

    /** Lines 173-180: give the cells back and move the last entry into the gap. */
    method Release(i: nat)
      requires Wired() && i < allocationCount
      modifies this, allocations, memory.bitmap, memory.bytes
      ensures Wired()
      ensures var h := old(View());
              var (cells, bytes) := Purge(h.cells, h.bytes, memory.origin, h.table[i].base, Total(h.table[i]));
              View() == Heap(cells, bytes, RemoveEntry(h.table, i))
    {
      ghost var table := View().table;
      assert table[i] == allocations[i];
      var total := (allocations[i].size * allocations[i].replicas) % CellMap.U64;
      memory.PurgeInfectedTissue(allocations[i].base, total);
      if i < allocationCount - 1 {
        allocations[i] := allocations[allocationCount - 1];
      }
      allocationCount := allocationCount - 1;
      assert View().table == RemoveEntry(table, i);
    }
  }

  lemma ReplicateUnfolds(h: Heap, origin: nat, address: nat, i: nat, data: seq<bv8>)
    requires ValidHeap(h, origin) && address != 0 && i < |h.table| && i == Find(h.table, address, 0)
    requires |data| <= h.table[i].size
    ensures var a := h.table[i];
            && origin <= a.base && a.base - origin + a.replicas * a.size <= ARENA
            && var h' := h.(bytes := PutReplicas(h.bytes, a.base - origin, a.size, a.replicas, data));
               ValidHeap(h', origin) && Replicate(h, origin, address, data) == (h', true)
  {
    hide ValidHeap, PutReplicas;
    EntryBytes(h, origin, i);
    var a := h.table[i];
    OtherBytes(h, origin, PutReplicas(h.bytes, a.base - origin, a.size, a.replicas, data));
  }

  /** Validity does not depend on what the bytes are. */
  lemma OtherBytes(h: Heap, origin: nat, bytes: seq<bv8>)
    requires ValidHeap(h, origin) && |bytes| == |h.bytes|
    ensures ValidHeap(h.(bytes := bytes), origin)
  {
    SameHeap(h, h.(bytes := bytes), origin);
  }

  /** A table entry after a read. */
  function Recorded(a: Allocation): Allocation {
    a.(latencyTotal := (a.latencyTotal + Fastest(a.replicas).1) % CellMap.U64,
       readCount := (a.readCount + 1) % CellMap.U32)
  }

  lemma ReadUnfolds(h: Heap, origin: nat, address: nat, i: nat, n: nat)
    requires ValidHeap(h, origin) && address != 0 && i < |h.table| && i == Find(h.table, address, 0)
    requires n <= h.table[i].size
    ensures 0 <= ReadAt(origin, h.table[i]) && ReadAt(origin, h.table[i]) + n <= ARENA
    ensures var h' := h.(table := h.table[i := Recorded(h.table[i])]);
            && ValidHeap(h', origin)
            && Read(h, origin, address, n)
               == (h', h.bytes[ReadAt(origin, h.table[i])..ReadAt(origin, h.table[i]) + n], true)
  {
    ReadKeepsHeap(h, origin, address, n);
    assert ValidAllocation(h.cells, origin, h.table[i]);
    ReadInside(h, origin, h.table[i]);
  }

  /** The first r replicas have been written. */
  ghost predicate Copied(before: seq<bv8>, at: nat, size: nat, r: nat, data: seq<bv8>, bytes: seq<bv8>) {
    && |data| <= size && at + r * size <= |before|
    && bytes == PutReplicas(before, at, size, r, data)
  }

  lemma CopiedStep(before: seq<bv8>, at: nat, size: nat, r: nat, n: nat, data: seq<bv8>, bytes: seq<bv8>)
    requires Copied(before, at, size, r, data, bytes) && r < n && at + n * size <= |before|
    ensures 0 <= at + r * size && at + r * size + |data| <= |bytes|
    ensures Copied(before, at, size, r + 1, data, Put(bytes, at + r * size, data))
  {
    Replicas(r, n, size);
    ReplicaEnd(r + 1, size);
  }
}
