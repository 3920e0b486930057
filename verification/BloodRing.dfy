/** The united bus as a value: the ring, its write head (systole), its oldest slot
    (diastole) and the read heads of the sixteen organs, and what each operation of
    united-baremetal/src/united_bus.c makes of them. */
module BloodRing {

  const BLOOD_VOLUME: int := 2048
  const BASE_CAPACITY: int := 1024
  const MAX_ORGANS: int := 16
  const U32: int := 0x1_0000_0000

  const ORGAN_CORTEX: Byte := 0
  const ORGAN_SENSORY: Byte := 4
  const ORGAN_BROADCAST: Byte := 0xFF

  type Byte = b: int | 0 <= b < 256

  datatype Color = Red | White | Yellow | Gold | Silver | Purple

  datatype Globule = Globule(id: nat, color: Color, source: Byte, target: Byte, payload: int, size: nat)

  datatype Ring = Ring(blood: seq<Globule>, capacity: nat, systole: nat, diastole: nat, heads: seq<nat>,
                       drops: nat, pumps: nat, nextId: nat)

  /** What every reachable ring satisfies, shown in BusRuns. */
  ghost predicate Bounded(r: Ring) {
    && |r.blood| == BLOOD_VOLUME && |r.heads| == MAX_ORGANS
    && BASE_CAPACITY <= r.capacity <= BLOOD_VOLUME
    && r.systole <= r.capacity && r.systole < BLOOD_VOLUME && r.diastole < BLOOD_VOLUME
    && (forall i :: 0 <= i < |r.heads| ==> r.heads[i] < BLOOD_VOLUME)
    && r.drops < U32 && r.pumps < U32 && r.nextId < U32
  }

  // ----- pump ----------------------------------------------------------------

  datatype PumpResult = Pumped | Congested | Filtered

  function NextSystole(r: Ring): nat
    requires r.capacity > 0
  {
    (r.systole + 1) % r.capacity
  }

  predicate Full(r: Ring)
    requires r.capacity > 0
  {
    NextSystole(r) == r.diastole
  }

  predicate Priority(g: Globule) {
    g.color == White || g.color == Yellow
  }

  /** The barrier in front of the cortex. */
  predicate Barred(g: Globule) {
    g.target == ORGAN_CORTEX && g.color == Red && g.source != ORGAN_SENSORY
  }

  function Reseat(heads: seq<nat>, from: nat, to: nat): (heads': seq<nat>)
    ensures |heads'| == |heads|
    ensures forall i :: 0 <= i < |heads| ==> heads'[i] == if heads[i] == from then to else heads[i]
  {
    seq(|heads|, i requires 0 <= i < |heads| => if heads[i] == from then to else heads[i])
  }

  /** Lines 41-54: make room for a priority globule. */
  function Evict(r: Ring): Ring
    requires r.capacity > 0
  {
    var oldest := (r.diastole + 1) % r.capacity;
    r.(diastole := oldest, heads := Reseat(r.heads, r.systole, oldest))
  }

  /** Lines 64-76: adjust the capacity, number and store the globule. */
  function Store(r: Ring, g: Globule, next: nat): Ring
    requires r.systole < |r.blood|
  {
    r.(capacity := if g.color == White then BLOOD_VOLUME
                   else if r.capacity > BASE_CAPACITY then r.capacity - 1 else r.capacity,
       nextId := (r.nextId + 1) % U32,
       blood := r.blood[r.systole := g.(id := r.nextId)],
       systole := next)
  }

  function Pump(r: Ring, g: Globule): (Ring, PumpResult)
    requires r.capacity > 0 && r.systole < |r.blood|
  {
    var next := NextSystole(r);
    var counted := r.(pumps := (r.pumps + 1) % U32);
    if Full(r) && !Priority(g) then (counted.(drops := (r.drops + 1) % U32), Congested)
    else
      var roomy := if Full(r) then Evict(counted) else counted;
      if Barred(g) then (roomy.(drops := (r.drops + 1) % U32), Filtered)
      else (Store(roomy, g, next), Pumped)
  }

  // ----- absorb --------------------------------------------------------------

  predicate Concerns(g: Globule, organ: Byte) {
    g.target == ORGAN_BROADCAST || g.target == organ
  }

  function Advance(head: nat, capacity: nat): nat
    requires capacity > 0
  {
    (head + 1) % capacity
  }

  /** Whether a walk that starts at `head` and wraps at the capacity ever meets the write head. */
  predicate Meets(head: nat, systole: nat, capacity: nat) {
    head == systole || systole < capacity
  }

  /** How many steps that walk has left. */
  function Distance(head: nat, systole: nat, capacity: nat): nat {
    if head == systole then 0
    else if head >= capacity then capacity + 1
    else if head <= systole then systole - head
    else systole + capacity - head
  }

  lemma AdvanceIs(head: nat, capacity: nat)
    requires capacity > 0
    ensures Advance(head, capacity) < capacity
    ensures head + 1 < capacity ==> Advance(head, capacity) == head + 1
    ensures head + 1 == capacity ==> Advance(head, capacity) == 0
  {
    if head + 1 < capacity {
      SmallMod(head + 1, capacity);
    }
  }

  lemma SmallMod(a: nat, m: nat)
    requires a < m
    ensures a % m == a
  {
  }

  lemma AdvanceCloser(head: nat, systole: nat, capacity: nat)
    requires capacity > 0 && head != systole && Meets(head, systole, capacity)
    ensures Meets(Advance(head, capacity), systole, capacity)
    ensures Distance(Advance(head, capacity), systole, capacity) < Distance(head, systole, capacity)
  {
    AdvanceIs(head, capacity);
  }

  /** Some slot inside the capacity concerns the organ. */
  predicate Addressed(r: Ring, organ: Byte)
    requires r.capacity <= |r.blood|
  {
    exists p :: 0 <= p < r.capacity && Concerns(r.blood[p], organ)
  }

  /** Whether a read loop that starts at `head` and may hand out `max` more globules ends: at the write
      head, or because the buffer is full. BusReader shows that this is exact. */
  predicate Ends(r: Ring, head: nat, organ: Byte, max: int)
    requires 0 < r.capacity <= |r.blood| && head < |r.blood|
  {
    || Meets(head, r.systole, r.capacity)
    || max <= 0
    || Addressed(r, organ)
    || (head >= r.capacity && max == 1 && Concerns(r.blood[head], organ))
  }

  /** The first slot inside the capacity, from p on, that concerns the organ, or the capacity. */
  function FirstMatch(r: Ring, organ: Byte, p: nat): (q: nat)
    requires p <= r.capacity <= |r.blood|
    ensures p <= q <= r.capacity
    ensures q < r.capacity ==> Concerns(r.blood[q], organ)
    ensures forall k :: p <= k < q ==> !Concerns(r.blood[k], organ)
    decreases r.capacity - p
  {
    if p == r.capacity || Concerns(r.blood[p], organ) then p else FirstMatch(r, organ, p + 1)
  }

  /** Why the loop ends: it gets closer to the write head or, when that cannot be met, either fills the
      buffer or gets closer to a slot that concerns the organ. */
  function Quota(r: Ring, head: nat, max: int): nat {
    if Meets(head, r.systole, r.capacity) || max <= 0 then 0 else max
  }

  function Gap(r: Ring, head: nat, organ: Byte): nat
    requires r.capacity <= |r.blood|
  {
    Distance(head, if Meets(head, r.systole, r.capacity) then r.systole else FirstMatch(r, organ, 0), r.capacity)
  }

  /** What is left of the buffer after the slot at `head`. */
  function Left(r: Ring, head: nat, organ: Byte, max: int): int
    requires head < |r.blood|
  {
    if Concerns(r.blood[head], organ) then max - 1 else max
  }

  lemma ReadCloser(r: Ring, head: nat, organ: Byte, max: int)
    requires 0 < r.capacity <= |r.blood| && head < |r.blood|
    requires Ends(r, head, organ, max) && head != r.systole && max > 0
    ensures var head', max' := Advance(head, r.capacity), Left(r, head, organ, max);
            && head' < r.capacity && Ends(r, head', organ, max')
            && Quota(r, head', max') <= Quota(r, head, max)
            && (Quota(r, head', max') == Quota(r, head, max) ==> Gap(r, head', organ) < Gap(r, head, organ))
  {
    AdvanceIs(head, r.capacity);
    if Meets(head, r.systole, r.capacity) {
      AdvanceCloser(head, r.systole, r.capacity);
    } else if Addressed(r, organ) {
      var p := FirstMatch(r, organ, 0);
      if head != p {
        AdvanceCloser(head, p, r.capacity);
      }
    }
  }

  /** The globules one call hands out from `head` on, and where it leaves the read head. */
  function AbsorbFrom(r: Ring, head: nat, organ: Byte, max: int): (seq<Globule>, nat)
    requires 0 < r.capacity <= |r.blood| && head < |r.blood|
    requires Ends(r, head, organ, max)
    decreases Quota(r, head, max), Gap(r, head, organ)
  {
    if head == r.systole || max <= 0 then ([], head)
    else
      ReadCloser(r, head, organ, max);
      var g := r.blood[head];
      if Concerns(g, organ) then
        var (rest, end) := AbsorbFrom(r, Advance(head, r.capacity), organ, max - 1);
        ([g] + rest, end)
      else
        AbsorbFrom(r, Advance(head, r.capacity), organ, max)
  }

  function Absorb(r: Ring, organ: Byte, max: int): (Ring, seq<Globule>)
    requires 0 < r.capacity <= |r.blood| && |r.heads| == MAX_ORGANS
    requires organ < MAX_ORGANS ==> r.heads[organ] < |r.blood| && Ends(r, r.heads[organ], organ, max)
  {
    if organ >= MAX_ORGANS then (r, [])
    else
      var (got, head) := AbsorbFrom(r, r.heads[organ], organ, max);
      (r.(heads := r.heads[organ := head]), got)
  }

  /** The position of the walk after k steps. */
  function Walk(head: nat, capacity: nat, k: nat): nat
    requires capacity > 0
  {
    if k == 0 then head else Advance(Walk(head, capacity, k - 1), capacity)
  }

  lemma {:induction false} WalkShift(head: nat, capacity: nat, k: nat)
    requires capacity > 0
    ensures Walk(Advance(head, capacity), capacity, k) == Walk(head, capacity, k + 1)
  {
    if k > 0 {
      WalkShift(head, capacity, k - 1);
    }
  }

  lemma {:induction false} WalkArrives(head: nat, systole: nat, capacity: nat) returns (k: nat)
    requires capacity > 0 && Meets(head, systole, capacity)
    ensures Walk(head, capacity, k) == systole
    decreases Distance(head, systole, capacity)
  {
    if head == systole {
      k := 0;
    } else {
      AdvanceCloser(head, systole, capacity);
      k := WalkArrives(Advance(head, capacity), systole, capacity);
      WalkShift(head, capacity, k);
      k := k + 1;
    }
  }

  lemma {:induction false} WalkStaysBelow(head: nat, capacity: nat, k: nat)
    requires capacity > 0 && k > 0
    ensures Walk(head, capacity, k) < capacity
  {
  }

  /** The read loop's walk can reach the write head if and only if it is there already or the write
      head lies inside the current capacity. */
  lemma MeetsExact(head: nat, systole: nat, capacity: nat)
    requires capacity > 0
    ensures Meets(head, systole, capacity) <==> exists k: nat :: Walk(head, capacity, k) == systole
  {
    if Meets(head, systole, capacity) {
      var k := WalkArrives(head, systole, capacity);
    } else {
      forall k: nat
        ensures Walk(head, capacity, k) != systole
      {
        if k > 0 {
          WalkStaysBelow(head, capacity, k);
        }
      }
    }
  }

  // ----- garbage collection --------------------------------------------------

  /** `(heart_systole - h + current_capacity) % current_capacity` in uint32_t arithmetic. */
  function Lag(r: Ring, head: nat): nat
    requires r.capacity > 0
  {
    ((r.systole - head + r.capacity) % U32) % r.capacity
  }

  /** The scan over the first n organs: a strictly larger lag replaces the candidate. */
  function Slowest(r: Ring, n: nat): nat
    requires r.capacity > 0 && n <= |r.heads|
  {
    if n == 0 then r.systole
    else
      var best := Slowest(r, n - 1);
      if Lag(r, r.heads[n - 1]) > Lag(r, best) then r.heads[n - 1] else best
  }

  function Gc(r: Ring): Ring
    requires r.capacity > 0
  {
    r.(diastole := Slowest(r, |r.heads|))
  }

  /** The scan finds a read head, or the write head, that lags most. */
  lemma {:induction false} SlowestLagsMost(r: Ring, n: nat)
    requires r.capacity > 0 && n <= |r.heads|
    ensures Slowest(r, n) == r.systole || exists i :: 0 <= i < n && Slowest(r, n) == r.heads[i]
    ensures Lag(r, r.systole) <= Lag(r, Slowest(r, n))
    ensures forall i :: 0 <= i < n ==> Lag(r, r.heads[i]) <= Lag(r, Slowest(r, n))
  {
    if n > 0 {
      SlowestLagsMost(r, n - 1);
    }
  }

  // ----- health --------------------------------------------------------------

  function Pending(r: Ring): nat
    requires r.capacity > 0
  {
    Lag(r, r.diastole)
  }

  function Initial(blood: seq<Globule>): Ring {
    Ring(blood, BASE_CAPACITY, 0, 0, seq(MAX_ORGANS, _ => 0), 0, 0, 1)
  }
}
