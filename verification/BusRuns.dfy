/** Facts about every run of the bus, dilation and eviction included. */
module BusRuns {
  import opened BloodRing
  import opened BusReader

  datatype Op = PumpOp(g: Globule) | AbsorbOp(organ: Byte, max: int) | GcOp

  /** An absorb whose loop ends; see BusReader.LoopEndsExact. */
  predicate Enabled(r: Ring, op: Op)
    requires 0 < r.capacity <= |r.blood| && |r.heads| == MAX_ORGANS
    requires forall i :: 0 <= i < |r.heads| ==> r.heads[i] < |r.blood|
  {
    op.AbsorbOp? && op.organ < MAX_ORGANS ==> Ends(r, r.heads[op.organ], op.organ, op.max)
  }

  function Apply(r: Ring, op: Op): (Ring, seq<Globule>)
    requires 0 < r.capacity <= |r.blood| && |r.heads| == MAX_ORGANS && r.systole < |r.blood|
    requires op.AbsorbOp? && op.organ < MAX_ORGANS ==>
               r.heads[op.organ] < |r.blood| && Ends(r, r.heads[op.organ], op.organ, op.max)
  {
    match op
    case PumpOp(g) => (Pump(r, g).0, [])
    case AbsorbOp(organ, max) => Absorb(r, organ, max)
    case GcOp => (Gc(r), [])
  }

  predicate Accepts(r: Ring, op: Op)
    requires r.capacity > 0 && r.systole < |r.blood|
  {
    op.PumpOp? && Pump(r, op.g).1 == Pumped
  }

  /** A ring with its history: every globule it accepted, in order, every globule each organ was
      handed, and the number of pumps and refusals. */
  datatype World = World(ring: Ring, accepted: seq<Globule>, received: seq<seq<Globule>>, pumped: nat, refused: nat)

  ghost predicate ValidWorld(w: World) {
    Bounded(w.ring) && |w.received| == MAX_ORGANS
  }

  function Start(blood: seq<Globule>): World {
    World(Initial(blood), [], seq(MAX_ORGANS, _ => []), 0, 0)
  }

  function Step(w: World, op: Op): World
    requires ValidWorld(w) && Enabled(w.ring, op)
  {
    var (r', got) := Apply(w.ring, op);
    match op
    case PumpOp(g) =>
      if Accepts(w.ring, op)
      then w.(ring := r', pumped := w.pumped + 1, accepted := w.accepted + [g.(id := w.ring.nextId)])
      else w.(ring := r', pumped := w.pumped + 1, refused := w.refused + 1)
    case AbsorbOp(organ, _) =>
      if organ < MAX_ORGANS then w.(ring := r', received := w.received[organ := w.received[organ] + got])
      else w.(ring := r')
    case GcOp => w.(ring := r')
  }

  /** The counters agree with the history, up to the wrap-around of uint32_t. */
  ghost predicate Accounted(w: World) {
    && w.pumped == w.refused + |w.accepted|
    && w.ring.pumps == w.pumped % U32
    && w.ring.drops == w.refused % U32
    && w.ring.nextId == (1 + |w.accepted|) % U32
    && (forall k :: 0 <= k < |w.accepted| ==> w.accepted[k].id == (1 + k) % U32)
  }

  lemma {:induction false} AbsorbHeadBounded(r: Ring, head: nat, organ: Byte, max: int)
    requires 0 < r.capacity <= |r.blood| && head < |r.blood| && Ends(r, head, organ, max)
    ensures AbsorbFrom(r, head, organ, max).1 < |r.blood|
    decreases Quota(r, head, max), Gap(r, head, organ)
  {
    if head != r.systole && max > 0 {
      ReadCloser(r, head, organ, max);
      AbsorbHeadBounded(r, Advance(head, r.capacity), organ, Left(r, head, organ, max));
    }
  }

  lemma PumpBounded(r: Ring, g: Globule)
    requires Bounded(r)
    ensures Bounded(Pump(r, g).0)
  {
  }

  lemma StepBounded(w: World, op: Op)
    requires ValidWorld(w) && Enabled(w.ring, op)
    ensures ValidWorld(Step(w, op))
  {
    match op {
      case PumpOp(g) => PumpBounded(w.ring, g);
      case AbsorbOp(organ, max) =>
        if organ < MAX_ORGANS {
          AbsorbHeadBounded(w.ring, w.ring.heads[organ], organ, max);
        }
      case GcOp => SlowestLagsMost(w.ring, MAX_ORGANS);
    }
  }

  lemma Counting(n: nat)
    ensures (n % U32 + 1) % U32 == (n + 1) % U32
  {
  }

  lemma PumpCounts(r: Ring, g: Globule)
    requires Bounded(r)
    ensures var (r', result) := Pump(r, g);
            && r'.pumps == (r.pumps + 1) % U32
            && (if result == Pumped then r'.drops == r.drops && r'.nextId == (r.nextId + 1) % U32
                else r'.drops == (r.drops + 1) % U32 && r'.nextId == r.nextId)
  {
  }

  lemma StepAccounted(w: World, op: Op)
    requires ValidWorld(w) && Enabled(w.ring, op) && Accounted(w)
    ensures Accounted(Step(w, op))
  {
    if op.PumpOp? {
      PumpCounts(w.ring, op.g);
      Counting(w.pumped);
      Counting(w.refused);
      Counting(1 + |w.accepted|);
    }
  }

  /** A pump that evicts is always accepted. */
  lemma EvictionIsAccepted(r: Ring, g: Globule)
    requires Bounded(r) && Pump(r, g).0.diastole != r.diastole
    ensures Pump(r, g).1 == Pumped
  {
  }

  /** A run from the initial bus in which every absorb ends. (Step is defined on valid worlds only;
      that every world of a run is valid is a result, RunBounds, not an assumption.) */
  ghost predicate Runs(ws: seq<World>, ops: seq<Op>) {
    && |ws| == |ops| + 1
    && (exists blood: seq<Globule> :: |blood| == BLOOD_VOLUME && ws[0] == Start(blood))
    && (forall k :: 0 <= k < |ops| && ValidWorld(ws[k]) ==>
          Enabled(ws[k].ring, ops[k]) && ws[k + 1] == Step(ws[k], ops[k]))
  }

  /** Capacity, indices and counters in every run. */
  lemma {:induction false} RunBounds(ws: seq<World>, ops: seq<Op>, k: nat)
    requires Runs(ws, ops) && k <= |ops|
    ensures ValidWorld(ws[k]) && Accounted(ws[k])
    ensures var r := ws[k].ring;
            && 1024 <= r.capacity <= 2048 && r.systole < 2048 && r.diastole < 2048
            && |r.blood| == 2048 && |r.heads| == 16 && (forall i :: 0 <= i < 16 ==> r.heads[i] < 2048)
            && r.pumps == ws[k].pumped % 0x1_0000_0000 && r.drops == ws[k].refused % 0x1_0000_0000
            && ws[k].pumped == ws[k].refused + |ws[k].accepted|
    ensures forall i :: 0 <= i < |ws[k].accepted| ==> ws[k].accepted[i].id == (1 + i) % 0x1_0000_0000
  {
    if k > 0 {
      RunBounds(ws, ops, k - 1);
      assert ValidWorld(ws[k - 1]);
      assert ws[k] == Step(ws[k - 1], ops[k - 1]);
      StepBounded(ws[k - 1], ops[k - 1]);
      StepAccounted(ws[k - 1], ops[k - 1]);
    }
  }

  // ----- a run after which the write head is out of reach --------------------

  function PumpAll(r: Ring, g: Globule, n: nat): (r': Ring)
    requires Bounded(r)
    ensures Bounded(r')
  {
    if n == 0 then r
    else
      var prev := PumpAll(r, g, n - 1);
      PumpBounded(prev, g);
      Pump(prev, g).0
  }

  /** The same globule but for its number. */
  predicate Numbered(b: Globule, g: Globule) {
    b == g.(id := b.id)
  }

  lemma ContractionStep(r: Ring, g: Globule, n: nat)
    requires Bounded(r) && 0 < n <= 1023
    requires r.capacity == BLOOD_VOLUME - n + 1 && r.systole == 1 + n && r.diastole == 0
    requires g.color == Red && !Barred(g)
    ensures var r' := Pump(r, g).0;
            && r'.capacity == BLOOD_VOLUME - n && r'.systole == 2 + n && r'.diastole == 0 && r'.heads == r.heads
            && r'.blood == r.blood[1 + n := g.(id := r.nextId)]
  {
    SmallMod(r.systole + 1, r.capacity);
    assert NextSystole(r) == 2 + n && !Full(r);
  }

  /** While the bus contracts, write head and capacity approach each other by one per pump. */
  lemma {:induction false} ContractionMeets(r: Ring, g: Globule, n: nat)
    requires Bounded(r) && r.capacity == BLOOD_VOLUME && r.systole == 2 && r.diastole == 0
    requires g.color == Red && !Barred(g) && n <= 1023
    ensures var r' := PumpAll(r, g, n);
            && r'.capacity == BLOOD_VOLUME - n && r'.systole == 2 + n && r'.diastole == 0 && r'.heads == r.heads
            && r'.blood[..2] == r.blood[..2]
            && forall p :: 2 <= p < 2 + n ==> Numbered(r'.blood[p], g)
  {
    if n > 0 {
      ContractionMeets(r, g, n - 1);
      ContractionStep(PumpAll(r, g, n - 1), g, n);
    }
  }

  /** The bus after one red globule, one white one and 1023 red ones. */
  function Dilated(blood: seq<Globule>, red: Globule, white: Globule): (r: Ring)
    requires |blood| == BLOOD_VOLUME
    ensures Bounded(r)
  {
    PumpBounded(Initial(blood), red);
    PumpBounded(Pump(Initial(blood), red).0, white);
    PumpAll(Pump(Pump(Initial(blood), red).0, white).0, red, 1023)
  }

  lemma DilatedIs(blood: seq<Globule>, red: Globule, white: Globule)
    requires |blood| == BLOOD_VOLUME && red.color == Red && !Barred(red) && white.color == White
    ensures var r := Dilated(blood, red, white);
            && r.systole == r.capacity == 1025
            && (forall i :: 0 <= i < MAX_ORGANS ==> r.heads[i] == 0)
            && Numbered(r.blood[1], white)
            && forall p :: 0 <= p < 1025 && p != 1 ==> Numbered(r.blood[p], red)
  {
    var r0 := Initial(blood);
    PumpBounded(r0, red);
    var r1 := Pump(r0, red).0;
    PumpBounded(r1, white);
    var r2 := Pump(r1, white).0;
    ContractionMeets(r2, red, 1023);
    var r := Dilated(blood, red, white);
    assert r.blood[0] == r.blood[..2][0] == r2.blood[0] && r.blood[1] == r.blood[..2][1] == r2.blood[1];
  }

  /** Dilation takes the write head out of the readers' reach: after one red globule, one white one and
      1023 red ones it lies outside the capacity, and an organ's read loop ends exactly when the organ asks
      for nothing or one of the two globules concerns it. Every other organ's loop runs for ever. */
  lemma DilationStrandsReaders(blood: seq<Globule>, red: Globule, white: Globule, organ: Byte, max: int)
    requires |blood| == BLOOD_VOLUME && red.color == Red && !Barred(red) && white.color == White
    requires organ < MAX_ORGANS
    ensures var r := Dilated(blood, red, white);
            && !Meets(r.heads[organ], r.systole, r.capacity)
            && ((exists n: nat :: !Running(r, max, Rounds(r, organ, max, Reader(r.heads[organ], []), n)))
                <==> max <= 0 || Concerns(red, organ) || Concerns(white, organ))
  {
    var r := Dilated(blood, red, white);
    DilatedIs(blood, red, white);
    LoopEndsExact(r, r.heads[organ], organ, max);
    assert Concerns(r.blood[0], organ) == Concerns(red, organ) && Concerns(r.blood[1], organ) == Concerns(white, organ);
    hide Dilated, Rounds;
    if p :| 0 <= p < r.capacity && Concerns(r.blood[p], organ) {
      assert Numbered(r.blood[p], red) || Numbered(r.blood[p], white);
    }
  }

  /** An organ that such a globule concerns is handed the same globules again and again: a large buffer
      repeats with a period of at most 1025. */
  lemma DilationRepeats(blood: seq<Globule>, red: Globule, white: Globule, organ: Byte, max: int)
    requires |blood| == BLOOD_VOLUME && red.color == Red && !Barred(red) && white.color == White
    requires organ < MAX_ORGANS && (Concerns(red, organ) || Concerns(white, organ)) && max > 1025
    ensures var r := Dilated(blood, red, white);
            && Stranded(r, 0, organ)
            && var got, lap := Absorb(r, organ, max).1, |Lap(r, 0, organ)|;
               0 < lap <= 1025 && |got| == max && forall i :: 0 <= i < max - lap ==> got[lap + i] == got[i]
  {
    var r := Dilated(blood, red, white);
    DilatedIs(blood, red, white);
    hide Dilated;
    assert Concerns(r.blood[0], organ) == Concerns(red, organ) && Concerns(r.blood[1], organ) == Concerns(white, organ);
    MatchingShorter(r.blood[0..r.capacity], organ);
    MatchingShorter(r.blood[..0], organ);
    HandedOutAgain(r, 0, organ, max);
  }
}
