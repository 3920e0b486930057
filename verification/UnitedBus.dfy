/** The bus as it runs: a static array, sixteen read heads and a few counters updated in
    place (united-baremetal/src/united_bus.c), proved against BloodRing. */
module UnitedBus {
  import opened BloodRing
  import opened BusRuns

  datatype Health = Health(drops: nat, totalPumps: nat, overflowCount: nat, immuneTriggers: nat,
                           pendingGlobules: nat, capacity: nat)

  class Bus {
    const blood: array<Globule>
    const heads: array<nat>
    var capacity: nat
    var systole: nat
    var diastole: nat
    var drops: nat
    var pumps: nat
    var nextId: nat

    ghost predicate Valid()
      reads this, blood, heads
    {
      blood.Length == BLOOD_VOLUME && heads.Length == MAX_ORGANS && Bounded(View())
    }

    ghost function View(): Ring
      reads this, blood, heads
    {
      Ring(blood[..], capacity, systole, diastole, heads[..], drops, pumps, nextId)
    }

    /** The static storage at boot, followed by `united_bus_init`. */
    constructor ()
      ensures Valid() && fresh(blood) && fresh(heads)
      ensures View() == Initial(blood[..])
    {
      blood := new Globule[BLOOD_VOLUME](_ => Globule(0, Red, 0, 0, 0, 0));
      heads := new nat[MAX_ORGANS](_ => 0);
      capacity, systole, diastole := BASE_CAPACITY, 0, 0;
      drops, pumps, nextId := 0, 0, 1;
      new;
      assert heads[..] == seq(MAX_ORGANS, _ => 0);
    }

    /** Lines 36-77 */
    method Pump(g: Globule) returns (result: PumpResult)
      requires Valid()
      modifies this, blood, heads
      ensures Valid()
      ensures (View(), result) == BloodRing.Pump(old(View()), g)
    {
      PumpBounded(View(), g);
      pumps := (pumps + 1) % U32;
      var next := (systole + 1) % capacity;
      if next == diastole {
        if g.color == White || g.color == Yellow {
          diastole := (diastole + 1) % capacity;
          ReseatHeads(systole, diastole);
        } else {
          drops := (drops + 1) % U32;
          return Congested;
        }
      }
      if g.target == ORGAN_CORTEX {
        if g.color == Red && g.source != ORGAN_SENSORY {
          drops := (drops + 1) % U32;
          return Filtered;
        }
      }
      StoreGlobule(g, next);
      return Pumped;
    }

    /** Lines 64-75 */
    method StoreGlobule(g: Globule, next: nat)
      requires systole < blood.Length
      modifies this, blood
      ensures View() == Store(old(View()), g, next)
    {
      if g.color == White {
        capacity := BLOOD_VOLUME;
      } else if capacity > BASE_CAPACITY {
        capacity := capacity - 1;
      }
      blood[systole] := g.(id := nextId);
      nextId := (nextId + 1) % U32;
      systole := next;
      assert blood[..] == old(blood[..])[old(systole) := g.(id := old(nextId))];
    }

    /** Lines 45-49 */
    method ReseatHeads(from: nat, to: nat)
      modifies heads
      ensures heads[..] == Reseat(old(heads[..]), from, to)
    {
      for i := 0 to heads.Length
        invariant forall k :: 0 <= k < i ==> heads[k] == if old(heads[k]) == from then to else old(heads[k])
        invariant forall k :: i <= k < heads.Length ==> heads[k] == old(heads[k])
      {
        if heads[i] == from {
          heads[i] := to;
        }
      }
    }

    /** Lines 79-106. The precondition says that the loop ends, see BusReader.LoopEndsExact. */
    method Absorb(organ: Byte, max: int) returns (out: seq<Globule>)
      requires Valid()
      requires organ < MAX_ORGANS ==> Ends(View(), heads[organ], organ, max)
      modifies heads
      ensures Valid()
      ensures (View(), out) == BloodRing.Absorb(old(View()), organ, max)
    {
      out := [];
      if organ >= MAX_ORGANS {
        return;
      }
      var head: nat;
      out, head := ReadOn(organ, max);
      AbsorbHeadBounded(View(), heads[organ], organ, max);
      heads[organ] := head;
      assert heads[..] == old(heads[..])[organ := head];
    }

    /** The read loop, lines 82-97 */
    method ReadOn(organ: Byte, max: int) returns (out: seq<Globule>, head: nat)
      requires Valid() && organ < MAX_ORGANS
      requires Ends(View(), heads[organ], organ, max)
      ensures (out, head) == AbsorbFrom(View(), heads[organ], organ, max)
    {
      out, head := [], heads[organ];
      ghost var r := View();
      ghost var whole := AbsorbFrom(r, head, organ, max);
      assert [] + whole.0 == whole.0;
      while head != systole && |out| < max
        invariant head < BLOOD_VOLUME && Ends(r, head, organ, max - |out|)
        invariant Resumes(r, head, organ, max, out, whole)
        decreases Quota(r, head, max - |out|), Gap(r, head, organ)
      {
        ResumesStep(r, head, organ, max, out, whole);
        ReadCloser(r, head, organ, max - |out|);
        var g := blood[head];
        if g.target == ORGAN_BROADCAST || g.target == organ {
          out := out + [g];
        }
        head := (head + 1) % capacity;
      }
      assert out + [] == out;
    }

    /** Lines 108-117 */
    method Gc()
      requires Valid()
      modifies this`diastole
      ensures Valid()
      ensures View() == BloodRing.Gc(old(View()))
    {
      ghost var r := View();
      var minHead := systole;
      for i := 0 to heads.Length
        invariant View() == r
        invariant minHead == Slowest(r, i)
      {
        var h := heads[i];
        var distH := ((systole - h + capacity) % U32) % capacity;
        var distMin := ((systole - minHead + capacity) % U32) % capacity;
        if distH > distMin {
          minHead := h;
        }
      }
      SlowestLagsMost(r, heads.Length);
      diastole := minHead;
    }

    /** Lines 119-128 */
    method GetHealth() returns (h: Health)
      requires Valid()
      ensures h == Health(drops, pumps, drops, 0, Pending(View()), capacity)
    {
      h := Health(drops, pumps, drops, 0, ((systole - diastole + capacity) % U32) % capacity, capacity);
    }
  }

  /** Reading on from `head` after handing out `out` completes the whole call. */
  ghost predicate Resumes(r: Ring, head: nat, organ: Byte, max: int, out: seq<Globule>, whole: (seq<Globule>, nat))
    requires 0 < r.capacity <= |r.blood| && head < |r.blood| && Ends(r, head, organ, max - |out|)
  {
    var (rest, end) := AbsorbFrom(r, head, organ, max - |out|);
    whole == (out + rest, end)
  }

  lemma ResumesStep(r: Ring, head: nat, organ: Byte, max: int, out: seq<Globule>, whole: (seq<Globule>, nat))
    requires 0 < r.capacity <= |r.blood| && head < |r.blood| && Ends(r, head, organ, max - |out|)
    requires Resumes(r, head, organ, max, out, whole) && head != r.systole && |out| < max
    ensures var next := if Concerns(r.blood[head], organ) then out + [r.blood[head]] else out;
            && Advance(head, r.capacity) < |r.blood|
            && Ends(r, Advance(head, r.capacity), organ, max - |next|)
            && Resumes(r, Advance(head, r.capacity), organ, max, next, whole)
  {
    ReadCloser(r, head, organ, max - |out|);
    var g := r.blood[head];
    if Concerns(g, organ) {
      var rest := AbsorbFrom(r, Advance(head, r.capacity), organ, max - |out| - 1).0;
      assert (out + [g]) + rest == out + ([g] + rest);
    }
  }
}
