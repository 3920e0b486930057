/** The replicated heap as a value: ownership flags, bytes and the allocation table, and what
    hedged_malloc.c and bio_alloc.c make of them (memory-baremetal/src). Addresses are
    numbers; `origin` is the physical base of the arena and address 0 is NULL. */
module TissueHeap {
  import opened Memory
  import opened CellMap

  const ARENA: int := CELLS * CELL_SIZE
  const TABLE_LIMIT: int := 256
  const REPLICA_LIMIT: int := 4

  datatype Allocation = Allocation(base: nat, size: nat, replicas: nat, latencyTotal: nat, readCount: nat)

  datatype Heap = Heap(cells: seq<bool>, bytes: seq<bv8>, table: seq<Allocation>)

  // ----- cells and bytes -----------------------------------------------------

  /** `bio_allocate_neural_tissue`: the address, or NULL. A request for no cells never succeeds. */
  function AllocateTissue(cells: seq<bool>, origin: nat, size: nat): (seq<bool>, nat) {
    var needed := CellsNeeded(size);
    var start := FindRun(cells, needed, 0);
    if needed == 0 || start == -1 then (cells, 0)
    else (Mark(cells, start, needed, true), origin + start * CELL_SIZE)
  }

  /** NULL is returned exactly when no cell is asked for, no free run is long enough, or the leftmost one lies
      at address 0; in the last case alone its cells are taken all the same. */
  lemma NullExact(cells: seq<bool>, origin: nat, size: nat)
    ensures var needed := CellsNeeded(size);
            var start := FindRun(cells, needed, 0);
            var (cells', address) := AllocateTissue(cells, origin, size);
            && (address == 0 <==> needed == 0 || start == -1 || (origin == 0 && start == 0))
            && (cells' == cells <==> needed == 0 || start == -1)
  {
    var needed := CellsNeeded(size);
    var start := FindRun(cells, needed, 0);
    if needed != 0 && start != -1 {
      assert !cells[start] && Mark(cells, start, needed, true)[start];
    }
  }

  function CellOf(origin: nat, address: nat): nat
    requires origin <= address
  {
    ((address - origin) / CELL_SIZE) % U32
  }

  /** The uint32_t bound of the purge loop. */
  function PurgeEnd(start: nat, size: nat): nat {
    (start + CellsNeeded(size)) % U32
  }

  function Zeroed(bytes: seq<bv8>, from: nat, to: nat): (bytes': seq<bv8>)
    ensures |bytes'| == |bytes|
    ensures forall k :: 0 <= k < |bytes| ==> bytes'[k] == if from <= k / CELL_SIZE < to then 0 else bytes[k]
  {
    seq(|bytes|, k requires 0 <= k < |bytes| => if from <= k / CELL_SIZE < to then 0 else bytes[k])
  }

  /** `bio_purge_infected_tissue`: zero the cells and give them back. */
  function Purge(cells: seq<bool>, bytes: seq<bv8>, origin: nat, address: nat, size: nat): (seq<bool>, seq<bv8>) {
    if address < origin then (cells, bytes)
    else
      var start := CellOf(origin, address);
      var end := PurgeEnd(start, size);
      (Mark(cells, start, end - start, false), Zeroed(bytes, start, end))
  }

  /** The loop over the first n replicas. */
  function PutReplicas(bytes: seq<bv8>, at: nat, size: nat, n: nat, data: seq<bv8>): (bytes': seq<bv8>)
    requires |data| <= size && at + n * size <= |bytes|
    ensures |bytes'| == |bytes|
  {
    if n == 0 then bytes
    else
      ReplicaEnd(n, size);
      Put(PutReplicas(bytes, at, size, n - 1, data), at + (n - 1) * size, data)
  }

  lemma ReplicaEnd(n: nat, size: nat)
    requires n > 0
    ensures (n - 1) * size + size == n * size
  {
  }

  lemma Replicas(r: nat, n: nat, size: nat)
    requires r < n
    ensures r * size + size <= n * size
  {
    assert (n - 1 - r) * size >= 0;
    assert n * size == r * size + size + (n - 1 - r) * size;
  }

  lemma PutLast(bytes: seq<bv8>, at: nat, size: nat, n: nat, data: seq<bv8>, k: nat)
    requires |data| <= size && at + n * size <= |bytes| && k < |bytes| && n > 0
    ensures at + (n - 1) * size <= |bytes|
    ensures var slot := at + (n - 1) * size;
            && at <= slot && slot + size == at + n * size
            && PutReplicas(bytes, at, size, n, data)[k]
               == if slot <= k < slot + |data| then data[k - slot] else PutReplicas(bytes, at, size, n - 1, data)[k]
  {
    ReplicaEnd(n, size);
  }

  /** Nothing outside the replicas is written. */
  lemma {:induction false} PutOutside(bytes: seq<bv8>, at: nat, size: nat, n: nat, data: seq<bv8>, k: nat)
    requires |data| <= size && at + n * size <= |bytes| && k < |bytes|
    requires k < at || at + n * size <= k
    ensures PutReplicas(bytes, at, size, n, data)[k] == bytes[k]
  {
    if n > 0 {
      hide PutReplicas;
      PutLast(bytes, at, size, n, data, k);
      PutOutside(bytes, at, size, n - 1, data, k);
    }
  }

  /** Every replica gets the data and keeps what lies behind it; `place` is its k-th byte. */
  lemma {:induction false} PutInside(bytes: seq<bv8>, at: nat, size: nat, n: nat, data: seq<bv8>,
                                          r: nat, k: nat, place: nat)
    requires |data| <= size && at + n * size <= |bytes| && r < n && k < size && place == at + r * size + k
    ensures place < |bytes|
    ensures PutReplicas(bytes, at, size, n, data)[place] == if k < |data| then data[k] else bytes[place]
  {
    hide PutReplicas;
    Replicas(r, n, size);
    PutLast(bytes, at, size, n, data, place);
    if r == n - 1 {
      PutOutside(bytes, at, size, n - 1, data, place);
    } else {
      Replicas(r, n - 1, size);
      PutInside(bytes, at, size, n - 1, data, r, k, place);
    }
  }

  // ----- the table -----------------------------------------------------------

  /** The scan for the first entry with that base address. */
  function Find(table: seq<Allocation>, address: nat, from: nat): (i: int)
    requires from <= |table|
    ensures i == -1 || from <= i < |table|
    ensures i != -1 ==> table[i].base == address
    ensures i == -1 ==> forall j :: from <= j < |table| ==> table[j].base != address
    decreases |table| - from
  {
    if from == |table| then -1
    else if table[from].base == address then from
    else Find(table, address, from + 1)
  }

  /** Swap-remove. */
  function RemoveEntry(table: seq<Allocation>, i: nat): seq<Allocation>
    requires i < |table|
  {
    var last := |table| - 1;
    if i < last then table[..last][i := table[last]] else table[..last]
  }

  // ----- valid heaps ---------------------------------------------------------

  function Total(a: Allocation): nat {
    (a.size * a.replicas) % U64
  }

  function StartCell(origin: nat, a: Allocation): int {
    (a.base - origin) / CELL_SIZE
  }

  function CellCount(a: Allocation): nat {
    CellsNeeded(Total(a))
  }

  predicate InBlock(origin: nat, a: Allocation, cell: int) {
    StartCell(origin, a) <= cell < StartCell(origin, a) + CellCount(a)
  }

  ghost predicate ValidAllocation(cells: seq<bool>, origin: nat, a: Allocation) {
    && 1 <= a.replicas <= REPLICA_LIMIT && 1 <= a.size
    && 0 < a.base && origin <= a.base && a.base == origin + StartCell(origin, a) * CELL_SIZE
    && 1 <= CellCount(a) && StartCell(origin, a) + CellCount(a) <= |cells|
    && a.size * a.replicas <= CellCount(a) * CELL_SIZE
    && forall c :: 0 <= c < |cells| && InBlock(origin, a, c) ==> cells[c]
  }

  ghost predicate Apart(origin: nat, a: Allocation, b: Allocation) {
    || StartCell(origin, a) + CellCount(a) <= StartCell(origin, b)
    || StartCell(origin, b) + CellCount(b) <= StartCell(origin, a)
  }

  ghost predicate ValidHeap(h: Heap, origin: nat) {
    && origin + ARENA <= U64
    && |h.cells| == CELLS && |h.bytes| == ARENA && |h.table| <= TABLE_LIMIT
    && (forall i :: 0 <= i < |h.table| ==> ValidAllocation(h.cells, origin, h.table[i]))
    && (forall i, j :: 0 <= i < j < |h.table| ==> Apart(origin, h.table[i], h.table[j]))
  }

  /** A block's bytes lie inside its cells. */
  lemma BlockBytes(h: Heap, origin: nat, a: Allocation)
    requires ValidAllocation(h.cells, origin, a) && |h.cells| == CELLS
    ensures var at := a.base - origin;
            && at + a.replicas * a.size <= ARENA
            && at + a.replicas * a.size <= (StartCell(origin, a) + CellCount(a)) * CELL_SIZE
            && at == StartCell(origin, a) * CELL_SIZE
  {
  }

  // ----- operations ----------------------------------------------------------

  function Malloc(h: Heap, origin: nat, size: nat, replicas: nat): (Heap, nat) {
    if |h.table| >= TABLE_LIMIT then (h, 0)
    else if replicas == 0 || replicas > REPLICA_LIMIT then (h, 0)
    else
      var (cells, block) := AllocateTissue(h.cells, origin, (size * replicas) % U64);
      if block == 0 then (h.(cells := cells), 0)
      else (Heap(cells, h.bytes, h.table + [Allocation(block, size, replicas, 0, 0)]), block)
  }

  function Replicate(h: Heap, origin: nat, address: nat, data: seq<bv8>): (Heap, bool)
    requires ValidHeap(h, origin)
  {
    var i := Find(h.table, address, 0);
    if address == 0 || i == -1 || |data| > h.table[i].size then (h, false)
    else
      var a := h.table[i];
      BlockBytes(h, origin, a);
      (h.(bytes := PutReplicas(h.bytes, a.base - origin, a.size, a.replicas, data)), true)
  }

  /** `simulate_replica_latency` */
  function Latency(replica: nat): nat {
    80 + ((replica * 13579) % U32) % 120
  }

  /** The scan over the first n replicas for the lowest latency. */
  function Fastest(n: nat): (nat, nat) {
    if n == 0 then (0, 0xffff_ffff)
    else
      var (best, latency) := Fastest(n - 1);
      if Latency(n - 1) < latency then (n - 1, Latency(n - 1)) else (best, latency)
  }

  lemma {:induction false} FastestIsMin(n: nat)
    requires n > 0
    ensures Fastest(n).0 < n && Fastest(n).1 == Latency(Fastest(n).0)
    ensures forall r :: 0 <= r < n ==> Fastest(n).1 <= Latency(r)
  {
    if n > 1 {
      FastestIsMin(n - 1);
    }
  }

  lemma FastestInRange(n: nat)
    requires n > 0
    ensures Fastest(n).0 < n
  {
    FastestIsMin(n);
  }

  /** Where a read of an entry starts. */
  function ReadAt(origin: nat, a: Allocation): int {
    a.base - origin + Fastest(a.replicas).0 * a.size
  }

  lemma ReadInside(h: Heap, origin: nat, a: Allocation)
    requires ValidAllocation(h.cells, origin, a) && |h.cells| == CELLS
    ensures 0 <= ReadAt(origin, a) && ReadAt(origin, a) + a.size <= ARENA
  {
    FastestInRange(a.replicas);
    Replicas(Fastest(a.replicas).0, a.replicas, a.size);
    BlockBytes(h, origin, a);
  }

  /** `hedged_read`: the bytes of the fastest replica, and the entry's statistics. */
  function Read(h: Heap, origin: nat, address: nat, n: nat): (Heap, seq<bv8>, bool)
    requires ValidHeap(h, origin)
  {
    var i := Find(h.table, address, 0);
    if address == 0 || i == -1 || n > h.table[i].size then (h, [], false)
    else
      var a := h.table[i];
      ReadInside(h, origin, a);
      var at := ReadAt(origin, a);
      (h.(table := h.table[i := a.(latencyTotal := (a.latencyTotal + Fastest(a.replicas).1) % U64,
                                   readCount := (a.readCount + 1) % U32)]),
       h.bytes[at..at + n], true)
  }

  function Free(h: Heap, origin: nat, address: nat): Heap {
    var i := Find(h.table, address, 0);
    if address == 0 || i == -1 then h
    else
      var (cells, bytes) := Purge(h.cells, h.bytes, origin, address, Total(h.table[i]));
      Heap(cells, bytes, RemoveEntry(h.table, i))
  }
}
