/** The mode machine, the planes and the registry in literal terms, and what a run of publishes leaves. */
module ControlLaws {
  import opened ControlPlanes

  /** Which mode follows, for every mode before it: a broken chain gives SAFE; NORMAL and DEGRADED fall below 75
      and 40, DEGRADED rises to NORMAL at 90 and not before, SAFE rises to RECOVERY at 85, RECOVERY to NORMAL at 90. */
  lemma ModeExact(mode: Mode, alive: bool, health: nat)
    ensures var next := NextMode(mode, alive, health);
            && (next == Safe <==> !alive || (mode == Safe && health < 85) || (mode != Safe && health < 40))
            && (next == Recovery <==>
                  alive && ((mode == Safe && health >= 85) || (mode == Recovery && 40 <= health < 90)))
            && (next == Degraded <==>
                  alive && ((mode == Normal && 40 <= health < 75) || (mode == Degraded && 40 <= health < 90)))
            && (next == Normal <==>
                  alive && ((mode == Normal && health >= 75)
                            || ((mode == Degraded || mode == Recovery) && health >= 90)))
  {
  }

  /** In every run a mode machine that was DEGRADED is NORMAL again only after a tick at which the chain lived and
      health was 90 or more. */
  lemma {:induction false} NormalNeedsNinety(c: Control, ops: seq<Op>, start: nat) returns (k: int)
    requires |c.registry| == ORGANS && start <= |ops|
    requires After(c, ops[..start]).mode == Degraded && After(c, ops).mode == Normal
    ensures start <= k < |ops| && ops[k] == OpTick
    ensures var reg := After(c, ops[..k]).registry;
            |reg| == ORGANS && VitalAlive(reg) && EffectiveHealth(reg) >= 90
  {
    var last := |ops| - 1;
    k := last;
    assert ops[..|ops|] == ops;
    if start < |ops| {
      var init := ops[..last];
      assert init[..start] == ops[..start];
      var before := After(c, init);
      ApplyMode(before, ops[last]);
      ModeExact(before.mode, VitalAlive(before.registry), EffectiveHealth(before.registry));
      hide NextMode, VitalAlive, EffectiveHealth, Apply;
      if before.mode == Normal {
        k := NormalNeedsNinety(c, init, start);
        assert init[..k] == ops[..k];
      }
    }
  }

  /** What each plane decides, for what reason and at what risk. */
  lemma PlanesExact(alive: bool, agg: nat, worst: nat, mode: Mode)
    ensures var r := ReflexPlane(alive, agg);
            && r.active
            && (r.decision == Throttle <==> !alive || agg < 40)
            && (r.decision == Isolate <==> alive && 40 <= agg < 75)
            && (r.decision == Hold <==> alive && agg >= 75)
            && r.risk == (if !alive then 100 else if agg < 40 then 90 else if agg < 75 then 60 else 0)
            && r.reason == (if r.risk == 100 then 1 else if r.risk == 90 then 2 else if r.risk == 60 then 3 else 0)
    ensures var s := StrategicPlane(mode, agg);
            && s.active
            && (s.decision == Optimize <==> mode == Normal && agg >= 90)
            && (s.decision == Recover <==> mode == Recovery)
            && (s.decision == Hold <==> !(mode == Normal && agg >= 90) && mode != Recovery)
            && s.risk == (if mode == Normal then 10 else if mode == Recovery then 30 else 50)
            && s.reason == (if s.decision == Optimize then 1 else if s.decision == Recover then 2
                            else if mode == Normal then 0 else 3)
    ensures var a := AutonomyPlane(worst);
            && a.active
            && (a.decision == Recover <==> worst < 40)
            && (a.decision == Throttle <==> 40 <= worst < 75)
            && (a.decision == Hold <==> worst >= 75)
            && a.risk == (if worst < 40 then 40 else if worst < 75 then 25 else 0)
            && a.reason == (if worst < 40 then 1 else if worst < 75 then 2 else 0)
  {
  }

  /** The order of precedence. */
  lemma Precedence()
    ensures Rank(Throttle) < Rank(Isolate) < Rank(Recover) < Rank(Hold) < Rank(Optimize) < Rank(NoDecision)
  {
  }

  /** The vital organs, and what a living chain is. */
  lemma VitalExact(reg: seq<Snapshot>, i: int)
    requires |reg| == 17
    ensures IsVital(i) <==> i == 0 || i == 1 || i == 2 || i == 7 || i == 14
    ensures VitalAlive(reg)
            <==> && (reg[0].present ==> reg[0].health > 0) && (reg[1].present ==> reg[1].health > 0)
                 && (reg[2].present ==> reg[2].health > 0) && (reg[7].present ==> reg[7].health > 0)
                 && (reg[14].present ==> reg[14].health > 0)
  {
    assert IsVital(0) && IsVital(1) && IsVital(2) && IsVital(7) && IsVital(14);
  }

  // ----- the registry over runs ----------------------------------------------

  /** Operation k publishes for organ i. */
  predicate Publishes(ops: seq<Op>, k: int, i: nat) {
    0 <= k < |ops| && ops[k].OpPublish? && ops[k].organ == i
  }

  function Published(ops: seq<Op>, i: nat): nat {
    if ops == [] then 0
    else Published(ops[..|ops| - 1], i) + if Publishes(ops, |ops| - 1, i) then 1 else 0
  }

  /** Operation k is the last publish for organ i. */
  ghost predicate LastPublish(ops: seq<Op>, k: int, i: nat) {
    Publishes(ops, k, i) && forall j :: k < j < |ops| ==> !Publishes(ops, j, i)
  }

  lemma NextLastPublish(ops: seq<Op>, k: int, i: nat)
    requires ops != []
    ensures var last := |ops| - 1;
            if ops[last].OpPublish? && ops[last].organ == i then LastPublish(ops, k, i) <==> k == last
            else LastPublish(ops, k, i) <==> LastPublish(ops[..last], k, i)
    ensures LastPublish(ops, k, i) ==> 0 <= k < |ops| && ops[k].OpPublish?
    ensures Published(ops, i)
            == Published(ops[..|ops| - 1], i) + if ops[|ops| - 1].OpPublish? && ops[|ops| - 1].organ == i then 1 else 0
  {
    var init, last := ops[..|ops| - 1], |ops| - 1;
    assert Publishes(ops, last, i) <==> ops[last].OpPublish? && ops[last].organ == i;
    assert forall j :: 0 <= j < last ==> (Publishes(ops, j, i) <==> Publishes(init, j, i));
  }

  /** After a run the entry of an organ holds what was last published for it, with health cut to 100, and its
      heartbeat has gone up by the number of publishes; an organ nothing was published for is as it was. */
  lemma {:induction false} LastPublished(c: Control, ops: seq<Op>, i: nat, k: int)
    requires |c.registry| == ORGANS && i < ORGANS && c.registry[i].heartbeat < U32
    ensures var s, s' := c.registry[i], After(c, ops).registry[i];
            && s'.heartbeat == (s.heartbeat + Published(ops, i)) % 0x1_0000_0000
            && (Published(ops, i) == 0 ==> s' == s)
            && (LastPublish(ops, k, i) ==>
                  && 0 <= k < |ops| && ops[k].OpPublish? && s'.present && s'.mode == ops[k].mode
                  && s'.health == if ops[k].health > 100 then 100 else ops[k].health)
  {
    if ops != [] {
      var init, last := ops[..|ops| - 1], |ops| - 1;
      hide LastPublish, Apply;
      LastPublished(c, init, i, k);
      NextLastPublish(ops, k, i);
      NextBeat(c.registry[i].heartbeat, Published(init, i));
      PublishAt(After(c, init), ops[last], i);
    }
  }

  lemma NextBeat(h: nat, n: nat)
    ensures ((h + n) % U32 + 1) % U32 == (h + n + 1) % U32
  {
  }

  lemma PublishAt(c: Control, op: Op, i: nat)
    requires |c.registry| == ORGANS && i < ORGANS
    ensures var s, s' := c.registry[i], Apply(c, op).registry[i];
            if op.OpPublish? && op.organ == i
            then s' == Snapshot(true, if op.health > 100 then 100 else op.health, op.mode, (s.heartbeat + 1) % U32)
            else s' == s
  {
  }

  function TicksIn(ops: seq<Op>): nat {
    if ops == [] then 0 else TicksIn(ops[..|ops| - 1]) + if ops[|ops| - 1].OpTick? then 1 else 0
  }

  /** The tick counter counts the ticks, modulo 2^32. */
  lemma {:induction false} TicksAreCounted(c: Control, ops: seq<Op>)
    requires |c.registry| == ORGANS && c.ticks < U32
    ensures After(c, ops).ticks == (c.ticks + TicksIn(ops)) % 0x1_0000_0000
  {
    if ops != [] {
      TicksAreCounted(c, ops[..|ops| - 1]);
      NextBeat(c.ticks, TicksIn(ops[..|ops| - 1]));
    }
  }

  // ----- aggregation ---------------------------------------------------------

  /** Sums and counts add up over any division of the registry, and one entry counts itself if it has reported. */
  lemma {:induction false} SumsAdd(a: seq<Snapshot>, b: seq<Snapshot>)
    ensures SumHealth(a + b) == SumHealth(a) + SumHealth(b) && Present(a + b) == Present(a) + Present(b)
  {
    if b == [] {
      assert a + b == a;
    } else {
      assert (a + b)[..|a + b| - 1] == a + b[..|b| - 1];
      SumsAdd(a, b[..|b| - 1]);
    }
  }

  lemma OneEntry(s: Snapshot)
    ensures SumHealth([s]) == (if s.present then s.health else 0) && Present([s]) == if s.present then 1 else 0
  {
    assert [s][..0] == [];
  }

  /** The average is the sum over the count, rounded down, and 100 when nobody has reported. */
  lemma AverageExact(reg: seq<Snapshot>)
    ensures var avg, n := AggregateHealth(reg), Present(reg);
            if n == 0 then avg == 100 else n * avg <= SumHealth(reg) < n * avg + n
  {
  }
}
