/** Read-your-writes, disjointness and conservation of cells over every interleaving of heap
    operations on any number of blocks. */
module HeapRuns {
  import opened Memory
  import opened Wrappers
  import opened CellMap
  import opened TissueHeap

  /** What a block's owner last wrote at each offset. */
  type Contents = seq<Option<bv8>>

  /** The heap with its history: the contents of every live block and the other owned cells: those handed
      out to other users of the cell allocator, or lost by a request that was granted at address 0. */
  datatype World = World(heap: Heap, blocks: map<nat, Contents>, others: set<nat>)

  datatype Op =
    | OpMalloc(size: nat, replicas: nat)
    | OpReplicate(address: nat, data: seq<bv8>)
    | OpRead(address: nat, count: nat)
    | OpFree(address: nat)
    /** a tissue request by somebody else */
    | OpOther(size: nat)

  function Unwritten(size: nat): Contents {
    seq(size, _ => None)
  }

  function Overlay(c: Contents, data: seq<bv8>): (c': Contents)
    requires |data| <= |c|
    ensures |c'| == |c|
    ensures forall k :: 0 <= k < |c| ==> c'[k] == if k < |data| then Some(data[k]) else c[k]
  {
    seq(|c|, k requires 0 <= k < |c| => if k < |data| then Some(data[k]) else c[k])
  }

  // ----- the invariant -------------------------------------------------------

  /** Where replica r of a block keeps its k-th byte, as an offset into the arena. */
  function Place(origin: nat, a: Allocation, r: nat, k: nat): int {
    a.base - origin + r * a.size + k
  }

  predicate Holds(bytes: seq<bv8>, at: int, b: bv8) {
    0 <= at < |bytes| && bytes[at] == b
  }

  ghost predicate ReplicaHolds(bytes: seq<bv8>, origin: nat, a: Allocation, c: Contents, r: nat, k: nat)
    requires k < |c|
  {
    c[k].Some? ==> Holds(bytes, Place(origin, a, r, k), c[k].value)
  }

  /** Every replica of a block holds what was last written. */
  ghost predicate Reflects(bytes: seq<bv8>, origin: nat, a: Allocation, c: Contents) {
    && |c| == a.size
    && forall r: nat, k: nat :: r < a.replicas && k < a.size ==> ReplicaHolds(bytes, origin, a, c, r, k)
  }

  /** A replica's bytes lie inside the block's cells. */
  lemma PlaceInside(h: Heap, origin: nat, a: Allocation, r: nat, k: nat)
    requires ValidAllocation(h.cells, origin, a) && |h.cells| == CELLS && r < a.replicas && k < a.size
    ensures a.base - origin <= Place(origin, a, r, k) < a.base - origin + a.replicas * a.size <= ARENA
    ensures StartCell(origin, a) <= Place(origin, a, r, k) / CELL_SIZE < StartCell(origin, a) + CellCount(a)
  {
    Replicas(r, a.replicas, a.size);
    BlockBytes(h, origin, a);
  }

  ghost predicate InTable(table: seq<Allocation>, address: nat) {
    exists i :: 0 <= i < |table| && table[i].base == address
  }

  /** Each owned cell belongs to a live block or to another user, never to both. */
  ghost predicate Conserved(w: World, origin: nat) {
    forall c :: 0 <= c < |w.heap.cells| ==>
      && (w.heap.cells[c] <==>
            c in w.others || exists i :: 0 <= i < |w.heap.table| && InBlock(origin, w.heap.table[i], c))
      && (c in w.others ==> forall i :: 0 <= i < |w.heap.table| ==> !InBlock(origin, w.heap.table[i], c))
  }

  ghost predicate BlockTracked(w: World, origin: nat, a: Allocation) {
    a.base in w.blocks && Reflects(w.heap.bytes, origin, a, w.blocks[a.base])
  }

  ghost predicate Tracks(w: World, origin: nat) {
    && (forall p :: p in w.blocks <==> InTable(w.heap.table, p))
    && (forall i :: 0 <= i < |w.heap.table| ==> BlockTracked(w, origin, w.heap.table[i]))
  }

  ghost predicate Inv(w: World, origin: nat) {
    ValidHeap(w.heap, origin) && Tracks(w, origin) && Conserved(w, origin)
  }

  // ----- steps ---------------------------------------------------------------

  /** The block asked for is not larger than its cells: the request's cell count fits in 32 bits. */
  predicate Fits(op: Op) {
    op.OpMalloc? ==> op.size * op.replicas <= (U32 - 1) * CELL_SIZE
  }

  function Step(w: World, origin: nat, op: Op): World
    requires ValidHeap(w.heap, origin)
  {
    match op
    case OpMalloc(size, replicas) =>
      var (h', p) := Malloc(w.heap, origin, size, replicas);
      if p == 0 then World(h', w.blocks, w.others + Claimed(w.heap.cells, h'.cells))
      else w.(heap := h', blocks := w.blocks[p := Unwritten(size)])
    case OpReplicate(p, data) =>
      var (h', ok) := Replicate(w.heap, origin, p, data);
      if ok && p in w.blocks && |data| <= |w.blocks[p]|
      then w.(heap := h', blocks := w.blocks[p := Overlay(w.blocks[p], data)])
      else w.(heap := h')
    case OpRead(p, n) => w.(heap := Read(w.heap, origin, p, n).0)
    case OpFree(p) =>
      World(Free(w.heap, origin, p), if p == 0 then w.blocks else w.blocks - {p}, w.others)
    case OpOther(size) =>
      var (cells', p) := AllocateTissue(w.heap.cells, origin, size);
      World(w.heap.(cells := cells'), w.blocks,
            w.others + Claimed(w.heap.cells, cells'))
  }

  /** The cells that became owned. */
  function Claimed(cells: seq<bool>, cells': seq<bool>): set<nat> {
    set c | 0 <= c < |cells| && c < |cells'| && cells'[c] && !cells[c]
  }

  /** Blocks of one table never share a base address. */
  lemma BasesDiffer(h: Heap, origin: nat, i: nat, j: nat)
    requires ValidHeap(h, origin) && i < |h.table| && j < |h.table| && i != j
    ensures h.table[i].base != h.table[j].base
  {
    assert ValidAllocation(h.cells, origin, h.table[i]) && ValidAllocation(h.cells, origin, h.table[j]);
    assert if i < j then Apart(origin, h.table[i], h.table[j]) else Apart(origin, h.table[j], h.table[i]);
  }

  lemma FindFinds(h: Heap, origin: nat, i: nat)
    requires ValidHeap(h, origin) && i < |h.table|
    ensures Find(h.table, h.table[i].base, 0) == i
  {
    var f := Find(h.table, h.table[i].base, 0);
    if f != i {
      BasesDiffer(h, origin, i, f);
    }
  }

  // ----- malloc --------------------------------------------------------------

  /** A successful request takes free cells that cover all replicas. */
  lemma MallocBlock(h: Heap, origin: nat, size: nat, replicas: nat)
    requires ValidHeap(h, origin) && size * replicas <= (U32 - 1) * CELL_SIZE
    requires Malloc(h, origin, size, replicas).1 != 0
    ensures var (h', p) := Malloc(h, origin, size, replicas);
            var a := Allocation(p, size, replicas, 0, 0);
            var start := StartCell(origin, a);
            && h' == Heap(Mark(h.cells, start, CellCount(a), true), h.bytes, h.table + [a])
            && FreeRun(h.cells, start, CellCount(a))
            && ValidAllocation(h'.cells, origin, a)
  {
    FittingRequest(size * replicas);
    Taken(h.cells, origin, size * replicas);
    hide FindRun, CellsNeeded, FreeRun;
    var start := FindRun(h.cells, CellsNeeded(size * replicas), 0);
    StartOf(origin, Malloc(h, origin, size, replicas).1, start);
  }

  lemma Taken(cells: seq<bool>, origin: nat, bytes: nat)
    requires AllocateTissue(cells, origin, bytes).1 != 0
    ensures var needed := CellsNeeded(bytes);
            var start := FindRun(cells, needed, 0);
            && 0 < needed && 0 <= start && FreeRun(cells, start, needed) && start + needed <= |cells|
            && AllocateTissue(cells, origin, bytes) == (Mark(cells, start, needed, true), origin + start * CELL_SIZE)
  {
    hide CellsNeeded;
  }

  lemma FittingRequest(bytes: nat)
    requires bytes <= (U32 - 1) * CELL_SIZE
    ensures bytes % U64 == bytes
    ensures CellsNeeded(bytes) * CELL_SIZE >= bytes
    ensures CellsNeeded(bytes) > 0 ==> bytes > 0
  {
    CoverExact(bytes);
  }

  lemma StartOf(origin: nat, address: nat, start: nat)
    requires address == origin + start * CELL_SIZE
    ensures (address - origin) / CELL_SIZE == start
  {
  }

  lemma FreshIsApart(h: Heap, origin: nat, a: Allocation, i: nat)
    requires ValidHeap(h, origin) && i < |h.table|
    requires 0 <= StartCell(origin, a) && 1 <= CellCount(a) && FreeRun(h.cells, StartCell(origin, a), CellCount(a))
    ensures Apart(origin, h.table[i], a)
  {
    var b := h.table[i];
    assert ValidAllocation(h.cells, origin, b);
    if !Apart(origin, b, a) {
      var c := if StartCell(origin, a) >= StartCell(origin, b) then StartCell(origin, a) else StartCell(origin, b);
      assert InBlock(origin, b, c);
    }
  }

  lemma OwnedKept(cells: seq<bool>, cells': seq<bool>, origin: nat, a: Allocation)
    requires ValidAllocation(cells, origin, a) && |cells'| == |cells|
    requires forall c :: 0 <= c < |cells| && InBlock(origin, a, c) ==> cells'[c]
    ensures ValidAllocation(cells', origin, a)
  {
  }

  lemma MallocKeepsHeap(h: Heap, origin: nat, size: nat, replicas: nat)
    requires ValidHeap(h, origin) && size * replicas <= (U32 - 1) * CELL_SIZE
    ensures ValidHeap(Malloc(h, origin, size, replicas).0, origin)
  {
    var (h', p) := Malloc(h, origin, size, replicas);
    if p != 0 {
      MallocBlock(h, origin, size, replicas);
      var a := Allocation(p, size, replicas, 0, 0);
      forall i | 0 <= i < |h.table|
        ensures ValidAllocation(h'.cells, origin, h.table[i]) && Apart(origin, h.table[i], a)
      {
        assert ValidAllocation(h.cells, origin, h.table[i]);
        OwnedKept(h.cells, h'.cells, origin, h.table[i]);
        FreshIsApart(h, origin, a, i);
      }
    } else {
      forall i | 0 <= i < |h.table|
        ensures ValidAllocation(h'.cells, origin, h.table[i])
      {
        assert ValidAllocation(h.cells, origin, h.table[i]);
        OwnedKept(h.cells, h'.cells, origin, h.table[i]);
      }
    }
  }

  /** A request that returns NULL takes cells only at base 0. */
  lemma NothingLost(h: Heap, origin: nat, size: nat, replicas: nat)
    requires Malloc(h, origin, size, replicas).1 == 0 && origin > 0
    ensures Malloc(h, origin, size, replicas).0 == h
  {
    NullExact(h.cells, origin, (size * replicas) % U64);
  }

  lemma MallocKeeps(w: World, origin: nat, size: nat, replicas: nat)
    requires Inv(w, origin) && size * replicas <= (U32 - 1) * CELL_SIZE
    ensures Inv(Step(w, origin, OpMalloc(size, replicas)), origin)
  {
    var (h', p) := Malloc(w.heap, origin, size, replicas);
    var w' := Step(w, origin, OpMalloc(size, replicas));
    MallocKeepsHeap(w.heap, origin, size, replicas);
    if p != 0 {
      MallocBlock(w.heap, origin, size, replicas);
      MallocTracks(w, origin, size, replicas);
      MallocConserves(w, origin, size, replicas);
    } else {
      MoreOwned(w, w', origin);
    }
  }

  lemma MallocTracks(w: World, origin: nat, size: nat, replicas: nat)
    requires Inv(w, origin) && size * replicas <= (U32 - 1) * CELL_SIZE
    requires Malloc(w.heap, origin, size, replicas).1 != 0
    ensures Tracks(Step(w, origin, OpMalloc(size, replicas)), origin)
  {
    var (h', p) := Malloc(w.heap, origin, size, replicas);
    var w' := Step(w, origin, OpMalloc(size, replicas));
    MallocBlock(w.heap, origin, size, replicas);
    MallocKeepsHeap(w.heap, origin, size, replicas);
    var n := |w.heap.table|;
    assert h'.table[n].base == p;
    forall i | 0 <= i < n
      ensures h'.table[i] == w.heap.table[i] && h'.table[i].base != p
    {
      BasesDiffer(h', origin, i, n);
    }
    forall q
      ensures q in w'.blocks <==> InTable(h'.table, q)
    {
      if InTable(w.heap.table, q) {
        var i :| 0 <= i < n && w.heap.table[i].base == q;
        assert h'.table[i].base == q;
      }
    }
  }

  lemma MallocConserves(w: World, origin: nat, size: nat, replicas: nat)
    requires Inv(w, origin) && size * replicas <= (U32 - 1) * CELL_SIZE
    requires Malloc(w.heap, origin, size, replicas).1 != 0
    ensures Conserved(Step(w, origin, OpMalloc(size, replicas)), origin)
  {
    var (h', p) := Malloc(w.heap, origin, size, replicas);
    MallocBlock(w.heap, origin, size, replicas);
    var n := |w.heap.table|;
    forall c | 0 <= c < |h'.cells|
      ensures h'.cells[c] <==> c in w.others || exists i :: 0 <= i < |h'.table| && InBlock(origin, h'.table[i], c)
      ensures c in w.others ==> forall i :: 0 <= i < |h'.table| ==> !InBlock(origin, h'.table[i], c)
    {
      if InBlock(origin, h'.table[n], c) {
        assert !w.heap.cells[c];
      }
      if exists i :: 0 <= i < n && InBlock(origin, w.heap.table[i], c) {
        var i :| 0 <= i < n && InBlock(origin, w.heap.table[i], c);
        assert InBlock(origin, h'.table[i], c);
      }
    }
  }

  // ----- replicate -----------------------------------------------------------

  lemma EntryBytes(h: Heap, origin: nat, i: nat)
    requires ValidHeap(h, origin) && i < |h.table|
    ensures |h.bytes| == ARENA && h.table[i].base != 0
    ensures var a := h.table[i]; origin <= a.base && a.base - origin + a.replicas * a.size <= ARENA
  {
    assert ValidAllocation(h.cells, origin, h.table[i]);
    BlockBytes(h, origin, h.table[i]);
  }

  lemma ReplicateIs(h: Heap, origin: nat, i: nat, data: seq<bv8>, at: nat)
    requires ValidHeap(h, origin) && i < |h.table| && |data| <= h.table[i].size
    requires h.table[i].base == origin + at && h.table[i].base != 0
    requires at + h.table[i].replicas * h.table[i].size <= |h.bytes|
    requires Find(h.table, h.table[i].base, 0) == i
    ensures Replicate(h, origin, h.table[i].base, data).0.bytes
            == PutReplicas(h.bytes, at, h.table[i].size, h.table[i].replicas, data)
  {
    hide PutReplicas, Find;
  }

  /** One byte of one replica of the block that is written. */
  lemma OwnByte(bytes: seq<bv8>, origin: nat, a: Allocation, data: seq<bv8>, c: Contents, r: nat, k: nat)
    requires origin <= a.base && a.base - origin + a.replicas * a.size <= |bytes| && |data| <= a.size == |c|
    requires r < a.replicas && k < a.size && ReplicaHolds(bytes, origin, a, c, r, k)
    ensures var bytes' := PutReplicas(bytes, a.base - origin, a.size, a.replicas, data);
            ReplicaHolds(bytes', origin, a, Overlay(c, data), r, k)
  {
    hide PutReplicas, Put;
    PutInside(bytes, a.base - origin, a.size, a.replicas, data, r, k, Place(origin, a, r, k));
  }

  lemma ReplicateOwn(h: Heap, origin: nat, i: nat, data: seq<bv8>, c: Contents)
    requires ValidHeap(h, origin) && i < |h.table| && |data| <= h.table[i].size
    requires Reflects(h.bytes, origin, h.table[i], c)
    ensures Reflects(Replicate(h, origin, h.table[i].base, data).0.bytes, origin, h.table[i], Overlay(c, data))
  {
    var a := h.table[i];
    FindFinds(h, origin, i);
    EntryBytes(h, origin, i);
    ReplicateIs(h, origin, i, data, a.base - origin);
    hide ValidHeap, PutReplicas, ReplicaHolds, Place;
    var bytes' := PutReplicas(h.bytes, a.base - origin, a.size, a.replicas, data);
    forall r: nat, k: nat | r < a.replicas && k < a.size
      ensures ReplicaHolds(bytes', origin, a, Overlay(c, data), r, k)
    {
      OwnByte(h.bytes, origin, a, data, c, r, k);
    }
  }

  /** A byte of one block does not lie in another block. */
  lemma PlaceApart(h: Heap, origin: nat, i: nat, j: nat, r: nat, k: nat)
    requires ValidHeap(h, origin) && i < |h.table| && j < |h.table| && j != i
    requires r < h.table[j].replicas && k < h.table[j].size
    ensures var a := h.table[i];
            var place := Place(origin, h.table[j], r, k);
            0 <= place < |h.bytes| && (place < a.base - origin || a.base - origin + a.replicas * a.size <= place)
  {
    var a, b := h.table[i], h.table[j];
    assert ValidAllocation(h.cells, origin, a) && ValidAllocation(h.cells, origin, b);
    assert if i < j then Apart(origin, a, b) else Apart(origin, b, a);
    BlockBytes(h, origin, a);
    BlockBytes(h, origin, b);
    PlaceInside(h, origin, b, r, k);
    hide Place;
  }

  /** One byte of one replica of another block. */
  lemma OtherByte(bytes: seq<bv8>, at: nat, size: nat, n: nat, data: seq<bv8>,
                  origin: nat, b: Allocation, c: Contents, r: nat, k: nat)
    requires |data| <= size && at + n * size <= |bytes| && k < |c| && ReplicaHolds(bytes, origin, b, c, r, k)
    requires 0 <= Place(origin, b, r, k) < |bytes|
    requires Place(origin, b, r, k) < at || at + n * size <= Place(origin, b, r, k)
    ensures ReplicaHolds(PutReplicas(bytes, at, size, n, data), origin, b, c, r, k)
  {
    hide PutReplicas, Place;
    PutOutside(bytes, at, size, n, data, Place(origin, b, r, k));
  }

  lemma ReplicateElsewhere(h: Heap, origin: nat, i: nat, data: seq<bv8>, j: nat, c: Contents)
    requires ValidHeap(h, origin) && i < |h.table| && j < |h.table| && j != i && |data| <= h.table[i].size
    requires Reflects(h.bytes, origin, h.table[j], c)
    ensures Reflects(Replicate(h, origin, h.table[i].base, data).0.bytes, origin, h.table[j], c)
  {
    FindFinds(h, origin, i);
    EntryBytes(h, origin, i);
    ReplicateIs(h, origin, i, data, h.table[i].base - origin);
    hide Replicate, PutReplicas, ValidHeap, Place, ReplicaHolds;
    var a, b := h.table[i], h.table[j];
    var bytes' := PutReplicas(h.bytes, a.base - origin, a.size, a.replicas, data);
    forall r: nat, k: nat | r < b.replicas && k < b.size
      ensures ReplicaHolds(bytes', origin, b, c, r, k)
    {
      PlaceApart(h, origin, i, j, r, k);
      OtherByte(h.bytes, a.base - origin, a.size, a.replicas, data, origin, b, c, r, k);
    }
  }

  lemma ReplicateKeeps(w: World, origin: nat, p: nat, data: seq<bv8>)
    requires Inv(w, origin)
    ensures Inv(Step(w, origin, OpReplicate(p, data)), origin)
  {
    var h := w.heap;
    var (h', ok) := Replicate(h, origin, p, data);
    if ok {
      var i := Find(h.table, p, 0);
      var w' := Step(w, origin, OpReplicate(p, data));
      forall j | 0 <= j < |h.table|
        ensures BlockTracked(w', origin, h.table[j])
      {
        assert BlockTracked(w, origin, h.table[j]);
        if j == i {
          ReplicateOwn(h, origin, i, data, w.blocks[h.table[i].base]);
        } else {
          BasesDiffer(h, origin, i, j);
          ReplicateElsewhere(h, origin, i, data, j, w.blocks[h.table[j].base]);
        }
      }
    }
  }

  // ----- read ----------------------------------------------------------------

  lemma ReadKeeps(w: World, origin: nat, p: nat, n: nat)
    requires Inv(w, origin)
    ensures Inv(Step(w, origin, OpRead(p, n)), origin)
  {
    ReadKeepsHeap(w.heap, origin, p, n);
    SameShape(w, Step(w, origin, OpRead(p, n)), origin);
  }

  ghost predicate SameBlock(a: Allocation, b: Allocation) {
    a.base == b.base && a.size == b.size && a.replicas == b.replicas
  }

  /** Statistics do not matter to the invariant. */
  lemma SameShape(w: World, w': World, origin: nat)
    requires Inv(w, origin) && w'.blocks == w.blocks && w'.others == w.others
    requires w'.heap.cells == w.heap.cells && w'.heap.bytes == w.heap.bytes && |w'.heap.table| == |w.heap.table|
    requires forall i :: 0 <= i < |w.heap.table| ==> SameBlock(w'.heap.table[i], w.heap.table[i])
    ensures Inv(w', origin)
  {
    SameHeap(w.heap, w'.heap, origin);
    SameTracks(w, w', origin);
    forall c | 0 <= c < |w.heap.cells|
      ensures (exists i :: 0 <= i < |w.heap.table| && InBlock(origin, w.heap.table[i], c))
              <==> (exists i :: 0 <= i < |w'.heap.table| && InBlock(origin, w'.heap.table[i], c))
      ensures w'.heap.cells[c] == w.heap.cells[c]
    {
      SameCells(w.heap.table, w'.heap.table, origin, c);
    }
  }

  lemma SameCells(t: seq<Allocation>, t': seq<Allocation>, origin: nat, c: int)
    requires |t'| == |t| && forall i :: 0 <= i < |t| ==> SameBlock(t'[i], t[i])
    ensures forall i :: 0 <= i < |t| ==> (InBlock(origin, t'[i], c) <==> InBlock(origin, t[i], c))
  {
    forall i | 0 <= i < |t|
      ensures InBlock(origin, t'[i], c) <==> InBlock(origin, t[i], c)
    {
      assert SameBlock(t'[i], t[i]);
    }
  }

  lemma SameHeap(h: Heap, h': Heap, origin: nat)
    requires ValidHeap(h, origin)
    requires h'.cells == h.cells && |h'.bytes| == |h.bytes| && |h'.table| == |h.table|
    requires forall i :: 0 <= i < |h.table| ==> SameBlock(h'.table[i], h.table[i])
    ensures ValidHeap(h', origin)
  {
    var t, t' := h.table, h'.table;
    forall i | 0 <= i < |t|
      ensures ValidAllocation(h.cells, origin, t'[i])
    {
      assert SameBlock(t'[i], t[i]) && ValidAllocation(h.cells, origin, t[i]);
    }
    forall i, j | 0 <= i < j < |t|
      ensures Apart(origin, t'[i], t'[j])
    {
      assert SameBlock(t'[i], t[i]) && SameBlock(t'[j], t[j]) && Apart(origin, t[i], t[j]);
    }
  }

  /** A read changes statistics only. */
  lemma ReadKeepsHeap(h: Heap, origin: nat, p: nat, n: nat)
    requires ValidHeap(h, origin)
    ensures var h' := Read(h, origin, p, n).0;
            && ValidHeap(h', origin) && h'.cells == h.cells && h'.bytes == h.bytes && |h'.table| == |h.table|
            && forall i :: 0 <= i < |h.table| ==> SameBlock(h'.table[i], h.table[i])
  {
    SameHeap(h, Read(h, origin, p, n).0, origin);
  }

  lemma SameTracks(w: World, w': World, origin: nat)
    requires Tracks(w, origin) && w'.blocks == w.blocks
    requires w'.heap.bytes == w.heap.bytes && |w'.heap.table| == |w.heap.table|
    requires forall i :: 0 <= i < |w.heap.table| ==> SameBlock(w'.heap.table[i], w.heap.table[i])
    ensures Tracks(w', origin)
  {
    var t, t' := w.heap.table, w'.heap.table;
    forall i | 0 <= i < |t|
      ensures t'[i].base == t[i].base && BlockTracked(w', origin, t'[i])
    {
      assert SameBlock(t'[i], t[i]) && BlockTracked(w, origin, t[i]);
      var c := w.blocks[t[i].base];
      forall r: nat, k: nat | r < t[i].replicas && k < t[i].size
        ensures ReplicaHolds(w.heap.bytes, origin, t'[i], c, r, k)
      {
        assert ReplicaHolds(w.heap.bytes, origin, t[i], c, r, k);
      }
    }
    forall q
      ensures InTable(t', q) <==> InTable(t, q)
    {
      if InTable(t, q) {
        var i :| 0 <= i < |t| && t[i].base == q;
        assert t'[i].base == q;
      }
    }
  }

  /** A read takes its bytes from one of the replicas. */
  lemma ReadTakes(h: Heap, origin: nat, i: nat, n: nat) returns (replica: nat)
    requires ValidHeap(h, origin) && i < |h.table| && n <= h.table[i].size
    ensures replica < h.table[i].replicas
    ensures var (_, out, ok) := Read(h, origin, h.table[i].base, n);
            && ok && |out| == n
            && forall k :: 0 <= k < n ==> Holds(h.bytes, Place(origin, h.table[i], replica, k), out[k])
  {
    var a := h.table[i];
    assert ValidAllocation(h.cells, origin, a);
    FindFinds(h, origin, i);
    FastestInRange(a.replicas);
    ReadInside(h, origin, a);
    replica := Fastest(a.replicas).0;
    forall k: nat | k < n
      ensures Place(origin, a, replica, k) == ReadAt(origin, a) + k
    {
    }
  }

  /** A read of a live block succeeds and returns, at every offset that was ever written, what was
      last replicated there; and so would a read of any other replica. */
  lemma ReadYourWrites(w: World, origin: nat, i: nat, n: nat)
    requires Inv(w, origin) && i < |w.heap.table| && n <= w.heap.table[i].size
    ensures var a := w.heap.table[i];
            a.base in w.blocks && |w.blocks[a.base]| == a.size
    ensures var a := w.heap.table[i];
            var (_, out, ok) := Read(w.heap, origin, a.base, n);
            && ok && |out| == n
            && (forall k :: 0 <= k < n && w.blocks[a.base][k].Some? ==> out[k] == w.blocks[a.base][k].value)
    ensures var a := w.heap.table[i];
            forall r: nat, k: nat :: r < a.replicas && k < n ==>
              ReplicaHolds(w.heap.bytes, origin, a, w.blocks[a.base], r, k)
  {
    var a := w.heap.table[i];
    assert BlockTracked(w, origin, a);
    var replica := ReadTakes(w.heap, origin, i, n);
    var out := Read(w.heap, origin, a.base, n).1;
    forall k: nat | k < n && w.blocks[a.base][k].Some?
      ensures out[k] == w.blocks[a.base][k].value
    {
      assert ReplicaHolds(w.heap.bytes, origin, a, w.blocks[a.base], replica, k);
      assert Holds(w.heap.bytes, Place(origin, a, replica, k), out[k]);
    }
  }

  // ----- free ----------------------------------------------------------------

  /** Freeing a block gives back exactly its cells. */
  lemma FreeCells(h: Heap, origin: nat, i: nat)
    requires ValidHeap(h, origin) && i < |h.table|
    ensures var a := h.table[i];
            Free(h, origin, a.base)
            == Heap(Mark(h.cells, StartCell(origin, a), CellCount(a), false),
                    Zeroed(h.bytes, StartCell(origin, a), StartCell(origin, a) + CellCount(a)),
                    RemoveEntry(h.table, i))
  {
    FindFinds(h, origin, i);
    var a := h.table[i];
    assert ValidAllocation(h.cells, origin, a);
    PurgeRange(h.cells, origin, a);
  }

  lemma PurgeRange(cells: seq<bool>, origin: nat, a: Allocation)
    requires ValidAllocation(cells, origin, a) && |cells| == CELLS
    ensures CellOf(origin, a.base) == StartCell(origin, a)
    ensures PurgeEnd(StartCell(origin, a), Total(a)) == StartCell(origin, a) + CellCount(a)
  {
    Small(StartCell(origin, a));
    Small(StartCell(origin, a) + CellCount(a));
  }

  lemma Small(n: nat)
    requires n < U32
    ensures n % U32 == n
  {
  }

  /** What the swap-removal leaves: the other entries, one of them moved into the gap. */
  lemma Removed(table: seq<Allocation>, i: nat, k: nat)
    requires i < |table| && k < |table| - 1
    ensures |RemoveEntry(table, i)| == |table| - 1
    ensures RemoveEntry(table, i)[k] == if k == i then table[|table| - 1] else table[k]
  {
  }

  /** Where an entry other than the removed one is found afterwards, and back. */
  function Moved(table: seq<Allocation>, i: nat, j: nat): nat {
    if j == |table| - 1 then i else j
  }

  lemma Survives(table: seq<Allocation>, i: nat, j: nat)
    requires i < |table| && j < |table| && j != i
    ensures Moved(table, i, j) < |table| - 1
    ensures RemoveEntry(table, i)[Moved(table, i, j)] == table[j]
  {
  }

  function Source(table: seq<Allocation>, i: nat, k: nat): nat
    requires |table| > 0
  {
    if k == i then |table| - 1 else k
  }

  lemma FreeKeepsHeap(h: Heap, origin: nat, i: nat)
    requires ValidHeap(h, origin) && i < |h.table|
    ensures ValidHeap(Free(h, origin, h.table[i].base), origin)
  {
    FreeCells(h, origin, i);
    var h' := Free(h, origin, h.table[i].base);
    forall k | 0 <= k < |h'.table|
      ensures ValidAllocation(h'.cells, origin, h'.table[k])
    {
      Removed(h.table, i, k);
      EntryKept(h, origin, i, Source(h.table, i, k));
    }
    forall k, l | 0 <= k < l < |h'.table|
      ensures Apart(origin, h'.table[k], h'.table[l])
    {
      Removed(h.table, i, k);
      Removed(h.table, i, l);
      var s, t := Source(h.table, i, k), Source(h.table, i, l);
      assert if s < t then Apart(origin, h.table[s], h.table[t]) else Apart(origin, h.table[t], h.table[s]);
    }
  }

  lemma EntryKept(h: Heap, origin: nat, i: nat, j: nat)
    requires ValidHeap(h, origin) && i < |h.table| && j < |h.table| && j != i
    ensures var cells' := Mark(h.cells, StartCell(origin, h.table[i]), CellCount(h.table[i]), false);
            ValidAllocation(cells', origin, h.table[j])
    ensures forall c :: InBlock(origin, h.table[i], c) ==> !InBlock(origin, h.table[j], c)
  {
    assert ValidAllocation(h.cells, origin, h.table[i]) && ValidAllocation(h.cells, origin, h.table[j]);
    assert if i < j then Apart(origin, h.table[i], h.table[j]) else Apart(origin, h.table[j], h.table[i]);
  }

  lemma ZeroedElsewhere(h: Heap, origin: nat, i: nat, j: nat, c: Contents)
    requires ValidHeap(h, origin) && i < |h.table| && j < |h.table| && j != i
    requires Reflects(h.bytes, origin, h.table[j], c)
    ensures Reflects(Free(h, origin, h.table[i].base).bytes, origin, h.table[j], c)
  {
    FreeCells(h, origin, i);
    var a, b := h.table[i], h.table[j];
    assert ValidAllocation(h.cells, origin, a) && ValidAllocation(h.cells, origin, b);
    assert if i < j then Apart(origin, a, b) else Apart(origin, b, a);
    var bytes' := Free(h, origin, a.base).bytes;
    forall r: nat, k: nat | r < b.replicas && k < b.size
      ensures ReplicaHolds(bytes', origin, b, c, r, k)
    {
      PlaceInside(h, origin, b, r, k);
      assert ReplicaHolds(h.bytes, origin, b, c, r, k);
    }
  }

  /** What freeing the i-th block does to the table and the history. */
  lemma FreeShape(w: World, origin: nat, i: nat)
    requires ValidHeap(w.heap, origin) && i < |w.heap.table|
    ensures var w' := Step(w, origin, OpFree(w.heap.table[i].base));
            && w'.heap.table == RemoveEntry(w.heap.table, i)
            && w'.blocks == w.blocks - {w.heap.table[i].base}
            && w'.heap.cells
               == Mark(w.heap.cells, StartCell(origin, w.heap.table[i]), CellCount(w.heap.table[i]), false)
            && w'.others == w.others
  {
    assert ValidAllocation(w.heap.cells, origin, w.heap.table[i]);
    FreeCells(w.heap, origin, i);
  }

  lemma FreeTracksEntry(w: World, origin: nat, i: nat, j: nat)
    requires ValidHeap(w.heap, origin) && i < |w.heap.table| && j < |w.heap.table| && j != i
    requires BlockTracked(w, origin, w.heap.table[j])
    ensures BlockTracked(Step(w, origin, OpFree(w.heap.table[i].base)), origin, w.heap.table[j])
  {
    FreeShape(w, origin, i);
    BasesDiffer(w.heap, origin, i, j);
    ZeroedElsewhere(w.heap, origin, i, j, w.blocks[w.heap.table[j].base]);
  }

  lemma FreeTracksAll(w: World, origin: nat, i: nat)
    requires ValidHeap(w.heap, origin) && Tracks(w, origin) && i < |w.heap.table|
    ensures var w' := Step(w, origin, OpFree(w.heap.table[i].base));
            forall k :: 0 <= k < |w'.heap.table| ==> BlockTracked(w', origin, w'.heap.table[k])
  {
    var t := w.heap.table;
    var w' := Step(w, origin, OpFree(t[i].base));
    FreeShape(w, origin, i);
    forall k | 0 <= k < |w'.heap.table|
      ensures BlockTracked(w', origin, w'.heap.table[k])
    {
      Removed(t, i, k);
      FreeTracksEntry(w, origin, i, Source(t, i, k));
    }
  }

  lemma FreeTracks(w: World, origin: nat, i: nat)
    requires ValidHeap(w.heap, origin) && Tracks(w, origin) && i < |w.heap.table|
    ensures Tracks(Step(w, origin, OpFree(w.heap.table[i].base)), origin)
  {
    var t := w.heap.table;
    var w' := Step(w, origin, OpFree(t[i].base));
    FreeTracksAll(w, origin, i);
    FreeShape(w, origin, i);
    forall q
      ensures q in w'.blocks <==> InTable(w'.heap.table, q)
    {
      if q in w'.blocks {
        var j :| 0 <= j < |t| && t[j].base == q;
        Survives(t, i, j);
      }
    }
  }

  /** A cell lies in one of the remaining blocks exactly when it lay in a block other than the freed one. */
  lemma RemainingCells(h: Heap, origin: nat, i: nat, c: int)
    requires ValidHeap(h, origin) && i < |h.table|
    ensures var t' := RemoveEntry(h.table, i);
            (exists k :: 0 <= k < |t'| && InBlock(origin, t'[k], c))
            <==> !InBlock(origin, h.table[i], c) && exists j :: 0 <= j < |h.table| && InBlock(origin, h.table[j], c)
  {
    var t' := RemoveEntry(h.table, i);
    if k :| 0 <= k < |t'| && InBlock(origin, t'[k], c) {
      Removed(h.table, i, k);
      EntryKept(h, origin, i, Source(h.table, i, k));
      assert InBlock(origin, h.table[Source(h.table, i, k)], c);
    }
    if !InBlock(origin, h.table[i], c) {
      if j :| 0 <= j < |h.table| && InBlock(origin, h.table[j], c) {
        Survives(h.table, i, j);
        assert InBlock(origin, t'[Moved(h.table, i, j)], c);
      }
    }
  }

  lemma FreeConserves(w: World, origin: nat, i: nat)
    requires ValidHeap(w.heap, origin) && Conserved(w, origin) && i < |w.heap.table|
    ensures Conserved(Step(w, origin, OpFree(w.heap.table[i].base)), origin)
  {
    var w' := Step(w, origin, OpFree(w.heap.table[i].base));
    FreeShape(w, origin, i);
    var t' := w'.heap.table;
    forall c | 0 <= c < |w'.heap.cells|
      ensures w'.heap.cells[c] <==> c in w'.others || exists k :: 0 <= k < |t'| && InBlock(origin, t'[k], c)
      ensures c in w'.others ==> forall k :: 0 <= k < |t'| ==> !InBlock(origin, t'[k], c)
    {
      RemainingCells(w.heap, origin, i, c);
    }
  }

  lemma FreeKeeps(w: World, origin: nat, p: nat)
    requires Inv(w, origin)
    ensures Inv(Step(w, origin, OpFree(p)), origin)
  {
    var i := Find(w.heap.table, p, 0);
    if p != 0 && i != -1 {
      FreeKeepsHeap(w.heap, origin, i);
      FreeTracks(w, origin, i);
      FreeConserves(w, origin, i);
    } else if p != 0 {
      assert !InTable(w.heap.table, p);
      assert w.blocks - {p} == w.blocks;
    }
  }

  // ----- requests by others --------------------------------------------------

  lemma OtherKeeps(w: World, origin: nat, size: nat)
    requires Inv(w, origin)
    ensures Inv(Step(w, origin, OpOther(size)), origin)
  {
    var cells' := AllocateTissue(w.heap.cells, origin, size).0;
    forall i | 0 <= i < |w.heap.table|
      ensures ValidAllocation(cells', origin, w.heap.table[i])
    {
      assert ValidAllocation(w.heap.cells, origin, w.heap.table[i]);
      OwnedKept(w.heap.cells, cells', origin, w.heap.table[i]);
    }
    MoreOwned(w, Step(w, origin, OpOther(size)), origin);
  }

  /** Cells that become owned without a block are accounted to the others. */
  lemma MoreOwned(w: World, w': World, origin: nat)
    requires Inv(w, origin) && ValidHeap(w'.heap, origin)
    requires forall c :: 0 <= c < |w.heap.cells| && w.heap.cells[c] ==> w'.heap.cells[c]
    requires w'.heap.table == w.heap.table && w'.heap.bytes == w.heap.bytes && w'.blocks == w.blocks
    requires w'.others == w.others + Claimed(w.heap.cells, w'.heap.cells)
    ensures Inv(w', origin)
  {
    forall i | 0 <= i < |w.heap.table|
      ensures BlockTracked(w', origin, w.heap.table[i])
    {
      assert BlockTracked(w, origin, w.heap.table[i]);
    }
    forall i, c | 0 <= i < |w.heap.table| && 0 <= c < |w.heap.cells| && InBlock(origin, w.heap.table[i], c)
      ensures w.heap.cells[c]
    {
      assert ValidAllocation(w.heap.cells, origin, w.heap.table[i]);
    }
  }

  // ----- whole runs ----------------------------------------------------------

  function Boot(bytes: seq<bv8>): World {
    World(Heap(seq(CELLS, _ => false), bytes, []), map[], {})
  }

  /** A run from a fresh arena in which every request fits. */
  ghost predicate Runs(ws: seq<World>, ops: seq<Op>, origin: nat) {
    && origin + ARENA <= U64
    && |ws| == |ops| + 1
    && (exists bytes: seq<bv8> :: |bytes| == ARENA && ws[0] == Boot(bytes))
    && (forall k :: 0 <= k < |ops| ==>
          Fits(ops[k]) && (ValidHeap(ws[k].heap, origin) ==> ws[k + 1] == Step(ws[k], origin, ops[k])))
  }

  /** After any interleaving: live blocks are disjoint, every replica of every block holds what was
      last written to it, and each owned cell belongs to exactly one live block or to another user. */
  lemma {:induction false} RunKeepsInv(ws: seq<World>, ops: seq<Op>, origin: nat, k: nat)
    requires Runs(ws, ops, origin) && k <= |ops|
    ensures Inv(ws[k], origin)
  {
    if k > 0 {
      RunKeepsInv(ws, ops, origin, k - 1);
      assert ws[k] == Step(ws[k - 1], origin, ops[k - 1]) && Fits(ops[k - 1]);
      StepKeeps(ws[k - 1], origin, ops[k - 1]);
    }
  }

  lemma StepKeeps(w: World, origin: nat, op: Op)
    requires Inv(w, origin) && Fits(op)
    ensures Inv(Step(w, origin, op), origin)
  {
    match op {
      case OpMalloc(size, replicas) => MallocKeeps(w, origin, size, replicas);
      case OpReplicate(p, data) => ReplicateKeeps(w, origin, p, data);
      case OpRead(p, n) => ReadKeeps(w, origin, p, n);
      case OpFree(p) => FreeKeeps(w, origin, p);
      case OpOther(size) => OtherKeeps(w, origin, size);
    }
  }
}
