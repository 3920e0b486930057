/** The homeostasis mode machine and the three control planes as values (control-planes/src),
    and what every run of publishes and control ticks keeps. */
module ControlPlanes {

  const ORGANS: int := 17
  const UNITED: int := 0
  const KERNEL: int := 1
  const MEMORY: int := 2
  const REFLEX: int := 7
  const VITAL: int := 14

  const DEGRADED_BELOW: int := 75
  const SAFE_BELOW: int := 40
  const RECOVER_ABOVE: int := 85
  const NORMAL_ABOVE: int := 90
  const U32: int := 0x1_0000_0000

  type Byte = b: int | 0 <= b < 256

  datatype Snapshot = Snapshot(present: bool, health: Byte, mode: Byte, heartbeat: nat)

  datatype Mode = Normal | Degraded | Safe | Recovery

  datatype Decision = NoDecision | Hold | Throttle | Isolate | Recover | Optimize

  datatype PlaneStatus = PlaneStatus(active: bool, decision: Decision, reason: nat, risk: nat)

  // ----- the registry --------------------------------------------------------

  predicate IsVital(i: int) {
    i == UNITED || i == KERNEL || i == MEMORY || i == REFLEX || i == VITAL
  }

  function SumHealth(reg: seq<Snapshot>): nat {
    if reg == [] then 0
    else
      var last := reg[|reg| - 1];
      SumHealth(reg[..|reg| - 1]) + if last.present then last.health else 0
  }

  function Present(reg: seq<Snapshot>): nat {
    if reg == [] then 0 else Present(reg[..|reg| - 1]) + if reg[|reg| - 1].present then 1 else 0
  }

  /** The average over the organs that have reported; 100 before any has. */
  function AggregateHealth(reg: seq<Snapshot>): nat {
    if Present(reg) == 0 then 100 else SumHealth(reg) / Present(reg)
  }

  /** The lowest health among the first n organs that have reported and are not vital. */
  function Worst(reg: seq<Snapshot>, n: nat): nat
    requires n <= |reg|
  {
    if n == 0 then 100
    else
      var best := Worst(reg, n - 1);
      if !IsVital(n - 1) && reg[n - 1].present && reg[n - 1].health < best then reg[n - 1].health else best
  }

  /** A vital organ that has reported is not at zero health. */
  predicate VitalAlive(reg: seq<Snapshot>)
    requires |reg| == ORGANS
  {
    forall i :: 0 <= i < ORGANS && IsVital(i) ==> !(reg[i].present && reg[i].health == 0)
  }

  function Min(a: nat, b: nat): nat {
    if a < b then a else b
  }

  /** The average blended with the worst single organ. */
  function EffectiveHealth(reg: seq<Snapshot>): nat {
    Min(AggregateHealth(reg), Worst(reg, |reg|))
  }

  function Publish(reg: seq<Snapshot>, organ: int, health: Byte, mode: Byte): (reg': seq<Snapshot>)
    ensures |reg'| == |reg|
  {
    if organ < 0 || organ >= |reg| then reg
    else reg[organ := Snapshot(true, Min(health, 100), mode, (reg[organ].heartbeat + 1) % U32)]
  }

  ghost predicate ValidRegistry(reg: seq<Snapshot>) {
    |reg| == ORGANS && forall i :: 0 <= i < |reg| ==> reg[i].health <= 100
  }

  /** The average is a percentage, so its cast to uint8_t loses nothing. */
  lemma AverageIsPercent(reg: seq<Snapshot>)
    requires forall i :: 0 <= i < |reg| ==> reg[i].health <= 100
    ensures AggregateHealth(reg) <= 100
  {
    SumIsPercent(reg);
    if Present(reg) > 0 {
      QuotientBound(SumHealth(reg), Present(reg));
    }
  }

  lemma {:induction false} SumIsPercent(reg: seq<Snapshot>)
    requires forall i :: 0 <= i < |reg| ==> reg[i].health <= 100
    ensures SumHealth(reg) <= 100 * Present(reg)
  {
    if reg != [] {
      SumIsPercent(reg[..|reg| - 1]);
    }
  }

  lemma QuotientBound(sum: nat, n: nat)
    requires n > 0 && sum <= 100 * n
    ensures sum / n <= 100
  {
  }

  /** Worst is the minimum: reached by a reporting non-vital organ unless all of them are at 100. */
  lemma {:induction false} WorstIsMin(reg: seq<Snapshot>, n: nat)
    requires n <= |reg|
    ensures Worst(reg, n) <= 100
    ensures forall i :: 0 <= i < n && !IsVital(i) && reg[i].present ==> Worst(reg, n) <= reg[i].health
    ensures Worst(reg, n) == 100
            || exists i :: 0 <= i < n && !IsVital(i) && reg[i].present && reg[i].health == Worst(reg, n)
  {
    if n > 0 {
      WorstIsMin(reg, n - 1);
    }
  }

  // ----- mode and decisions --------------------------------------------------

  function NextMode(mode: Mode, alive: bool, health: nat): Mode {
    if !alive then Safe
    else match mode
      case Normal => if health < SAFE_BELOW then Safe else if health < DEGRADED_BELOW then Degraded else Normal
      case Degraded => if health < SAFE_BELOW then Safe else if health >= NORMAL_ABOVE then Normal else Degraded
      case Safe => if health >= RECOVER_ABOVE then Recovery else Safe
      case Recovery => if health < SAFE_BELOW then Safe else if health >= NORMAL_ABOVE then Normal else Recovery
  }

  function ReflexPlane(alive: bool, agg: nat): PlaneStatus {
    if !alive then PlaneStatus(true, Throttle, 1, 100)
    else if agg < SAFE_BELOW then PlaneStatus(true, Throttle, 2, 90)
    else if agg < DEGRADED_BELOW then PlaneStatus(true, Isolate, 3, 60)
    else PlaneStatus(true, Hold, 0, 0)
  }

  function StrategicPlane(mode: Mode, agg: nat): PlaneStatus {
    match mode
    case Normal => if agg >= NORMAL_ABOVE then PlaneStatus(true, Optimize, 1, 10) else PlaneStatus(true, Hold, 0, 10)
    case Recovery => PlaneStatus(true, Recover, 2, 30)
    case _ => PlaneStatus(true, Hold, 3, 50)
  }

  function AutonomyPlane(worst: nat): PlaneStatus {
    if worst < SAFE_BELOW then PlaneStatus(true, Recover, 1, 40)
    else if worst < DEGRADED_BELOW then PlaneStatus(true, Throttle, 2, 25)
    else PlaneStatus(true, Hold, 0, 0)
  }

  /** Lower ranks win. */
  function Rank(d: Decision): nat {
    match d
    case Throttle => 0
    case Isolate => 1
    case Recover => 2
    case Hold => 3
    case Optimize => 4
    case NoDecision => 5
  }

  function Resolve(reflex: Decision, strategic: Decision, autonomy: Decision): Decision {
    var first := if Rank(autonomy) < Rank(reflex) then autonomy else reflex;
    if Rank(strategic) < Rank(first) then strategic else first
  }

  datatype Control = Control(registry: seq<Snapshot>, mode: Mode, ticks: nat,
                             reflex: PlaneStatus, strategic: PlaneStatus, autonomy: PlaneStatus)

  function Tick(c: Control): (Control, Decision)
    requires |c.registry| == ORGANS
  {
    var reg := c.registry;
    var agg, worst, alive := AggregateHealth(reg), Worst(reg, ORGANS), VitalAlive(reg);
    var mode := NextMode(c.mode, alive, Min(agg, worst));
    var reflex, strategic, autonomy := ReflexPlane(alive, agg), StrategicPlane(mode, agg), AutonomyPlane(worst);
    (Control(reg, mode, (c.ticks + 1) % U32, reflex, strategic, autonomy),
     Resolve(reflex.decision, strategic.decision, autonomy.decision))
  }

  // ----- one tick, from any state --------------------------------------------

  /** The resolved decision is one of the three proposals and none of them outranks it. */
  lemma ResolvedIsMinimal(reflex: Decision, strategic: Decision, autonomy: Decision)
    ensures var d := Resolve(reflex, strategic, autonomy);
            && (d == reflex || d == strategic || d == autonomy)
            && Rank(d) <= Rank(reflex) && Rank(d) <= Rank(strategic) && Rank(d) <= Rank(autonomy)
  {
  }

  /** Which decision is taken, as a function of the registry and the new mode. Optimisation never wins. */
  lemma DecisionIs(c: Control)
    requires |c.registry| == ORGANS
    ensures var (c', d) := Tick(c);
            var alive, agg, worst := VitalAlive(c.registry), AggregateHealth(c.registry), Worst(c.registry, ORGANS);
            && (d == Throttle <==> !alive || agg < SAFE_BELOW || SAFE_BELOW <= worst < DEGRADED_BELOW)
            && (d == Isolate <==> d != Throttle && agg < DEGRADED_BELOW)
            && (d == Recover <==> d != Throttle && d != Isolate && (c'.mode == Recovery || worst < SAFE_BELOW))
            && (d == Hold <==> d != Throttle && d != Isolate && d != Recover)
            && d != Optimize && d != NoDecision
  {
  }

  /** Safety of a tick: a broken vital chain gives SAFE and THROTTLE; any other mode means the chain
      lives and health is at least 40; NORMAL means at least 75 and a decision to hold. */
  lemma TickSafety(c: Control)
    requires |c.registry| == ORGANS
    ensures var (c', d) := Tick(c);
            && (!VitalAlive(c.registry) ==> c'.mode == Safe && d == Throttle)
            && (c'.mode != Safe ==> VitalAlive(c.registry) && EffectiveHealth(c.registry) >= SAFE_BELOW)
            && (c'.mode == Normal ==> EffectiveHealth(c.registry) >= DEGRADED_BELOW && d == Hold)
  {
  }

  /** A registry in which every organ reports full health except one. */
  function OneWeak(organ: nat, health: Byte): (reg: seq<Snapshot>)
    requires organ < ORGANS
    ensures |reg| == ORGANS
  {
    seq(ORGANS, i => Snapshot(true, if i == organ then health else 100, 0, 1))
  }

  lemma {:induction false} OneWeakSums(organ: nat, health: Byte, n: nat)
    requires organ < ORGANS && n <= ORGANS
    ensures Present(OneWeak(organ, health)[..n]) == n
    ensures SumHealth(OneWeak(organ, health)[..n]) == 100 * n - (if organ < n then 100 - health else 0)
  {
    if n > 0 {
      var reg := OneWeak(organ, health);
      assert reg[..n][..n - 1] == reg[..n - 1];
      OneWeakSums(organ, health, n - 1);
    }
  }

  lemma OneWeakHealth(organ: nat, health: Byte)
    requires organ < ORGANS && !IsVital(organ) && health <= 100
    ensures var reg := OneWeak(organ, health);
            AggregateHealth(reg) == (1600 + health) / 17 && Worst(reg, ORGANS) == health && VitalAlive(reg)
  {
    var reg := OneWeak(organ, health);
    OneWeakSums(organ, health, ORGANS);
    assert reg[..ORGANS] == reg;
    WorstIsMin(reg, ORGANS);
    assert reg[organ].health == health && reg[organ].present;
  }

  // ----- when weaker organs make the decision milder -------------------------

  /** The same organs report, each at most as healthy as before. */
  ghost predicate Weaker(weak: seq<Snapshot>, reg: seq<Snapshot>) {
    && |weak| == |reg|
    && forall i :: 0 <= i < |reg| ==> weak[i].present == reg[i].present && weak[i].health <= reg[i].health
  }

  lemma {:induction false} WeakerSums(weak: seq<Snapshot>, reg: seq<Snapshot>)
    requires Weaker(weak, reg)
    ensures Present(weak) == Present(reg) && SumHealth(weak) <= SumHealth(reg)
  {
    if reg != [] {
      WeakerSums(weak[..|weak| - 1], reg[..|reg| - 1]);
    }
  }

  lemma QuotientGrows(a: nat, b: nat, n: nat)
    requires n > 0 && a <= b
    ensures a / n <= b / n
  {
    var p, q := a / n, b / n;
    assert n * p <= a && b < n * q + n;
    if p > q {
      MultipleGrows(n, q + 1, p);
    }
  }

  lemma MultipleGrows(n: nat, x: nat, y: nat)
    requires x <= y
    ensures n * x <= n * y
  {
  }

  lemma {:induction false} WeakerWorst(weak: seq<Snapshot>, reg: seq<Snapshot>, n: nat)
    requires Weaker(weak, reg) && n <= |reg|
    ensures Worst(weak, n) <= Worst(reg, n)
  {
    if n > 0 {
      WeakerWorst(weak, reg, n - 1);
    }
  }

  /** Weaker organs never raise the average, the worst health or the vital chain. */
  lemma WeakerHealth(weak: seq<Snapshot>, reg: seq<Snapshot>)
    requires Weaker(weak, reg) && |reg| == ORGANS
    ensures AggregateHealth(weak) <= AggregateHealth(reg) && Worst(weak, ORGANS) <= Worst(reg, ORGANS)
    ensures VitalAlive(weak) ==> VitalAlive(reg)
  {
    WeakerSums(weak, reg);
    WeakerWorst(weak, reg, ORGANS);
    if Present(reg) > 0 {
      QuotientGrows(SumHealth(weak), SumHealth(reg), Present(reg));
    }
  }

  /** When organs get weaker the tick takes a milder decision if and only if the chain still lives and the
      average still reaches 40, and either the worst organ falls from 40..74 to below 40, or a mode machine in SAFE
      was about to recover and now is not, while nothing falls below 75. */
  lemma MilderExact(c: Control, weak: seq<Snapshot>)
    requires |c.registry| == ORGANS && Weaker(weak, c.registry)
    ensures var agg, worst := AggregateHealth(c.registry), Worst(c.registry, ORGANS);
            var agg', worst' := AggregateHealth(weak), Worst(weak, ORGANS);
            Rank(Tick(c.(registry := weak)).1) > Rank(Tick(c).1)
            <==> (&& VitalAlive(weak) && agg' >= SAFE_BELOW
                  && (|| (SAFE_BELOW <= worst < DEGRADED_BELOW && worst' < SAFE_BELOW)
                      || (&& c.mode == Safe && Min(agg, worst) >= RECOVER_ABOVE && Min(agg', worst') < RECOVER_ABOVE
                          && agg' >= DEGRADED_BELOW && worst' >= DEGRADED_BELOW)))
  {
    WeakerHealth(weak, c.registry);
    DecisionIs(c);
    DecisionIs(c.(registry := weak));
    hide AggregateHealth, Worst, VitalAlive;
  }

  /** Both families occur. With all others at 100 and in any mode, a non-vital organ at 50 makes the tick
      throttle, the same organ at 30 only makes it attempt recovery; in SAFE the organ at 86 makes it recover,
      at 80 only hold. */
  lemma WeakerOrganMilderDecision(organ: nat, mode: Mode, idle: PlaneStatus)
    requires organ < ORGANS && !IsVital(organ)
    ensures Tick(Control(OneWeak(organ, 50), mode, 0, idle, idle, idle)).1 == Throttle
    ensures Tick(Control(OneWeak(organ, 30), mode, 0, idle, idle, idle)).1 == Recover
    ensures Tick(Control(OneWeak(organ, 86), Safe, 0, idle, idle, idle)).1 == Recover
    ensures Tick(Control(OneWeak(organ, 80), Safe, 0, idle, idle, idle)).1 == Hold
  {
    OneWeakHealth(organ, 50);
    OneWeakHealth(organ, 30);
    OneWeakHealth(organ, 86);
    OneWeakHealth(organ, 80);
    DecisionIs(Control(OneWeak(organ, 50), mode, 0, idle, idle, idle));
    DecisionIs(Control(OneWeak(organ, 30), mode, 0, idle, idle, idle));
    DecisionIs(Control(OneWeak(organ, 86), Safe, 0, idle, idle, idle));
    DecisionIs(Control(OneWeak(organ, 80), Safe, 0, idle, idle, idle));
  }

  // ----- whole runs ----------------------------------------------------------

  datatype Op = OpPublish(organ: int, health: Byte, mode: Byte) | OpTick

  function Apply(c: Control, op: Op): (c': Control)
    requires |c.registry| == ORGANS
    ensures |c'.registry| == ORGANS
  {
    match op
    case OpPublish(organ, health, mode) => c.(registry := Publish(c.registry, organ, health, mode))
    case OpTick => Tick(c).0
  }

  function After(c: Control, ops: seq<Op>): (c': Control)
    requires |c.registry| == ORGANS
    ensures |c'.registry| == ORGANS
  {
    if ops == [] then c else Apply(After(c, ops[..|ops| - 1]), ops[|ops| - 1])
  }

  /** Published health never exceeds 100, so neither does any aggregate. */
  lemma {:induction false} HealthIsPercent(c: Control, ops: seq<Op>)
    requires ValidRegistry(c.registry)
    ensures ValidRegistry(After(c, ops).registry)
    ensures AggregateHealth(After(c, ops).registry) <= 100 && EffectiveHealth(After(c, ops).registry) <= 100
  {
    if ops != [] {
      HealthIsPercent(c, ops[..|ops| - 1]);
    }
    AverageIsPercent(After(c, ops).registry);
  }

  /** The k-th operation is a tick that leads from one mode to another. */
  ghost predicate Moves(c: Control, ops: seq<Op>, k: nat, from: Mode, to: Mode, health: nat)
    requires |c.registry| == ORGANS
  {
    && k < |ops| && ops[k] == OpTick
    && var before := After(c, ops[..k]);
       && before.mode == from && After(c, ops[..k + 1]).mode == to
       && VitalAlive(before.registry) && EffectiveHealth(before.registry) >= health
  }

  lemma MovesPrefix(c: Control, ops: seq<Op>, n: nat, k: nat, from: Mode, to: Mode, health: nat)
    requires |c.registry| == ORGANS && n <= |ops| && Moves(c, ops[..n], k, from, to, health)
    ensures Moves(c, ops, k, from, to, health)
  {
    assert ops[..n][..k] == ops[..k] && ops[..n][..k + 1] == ops[..k + 1];
  }

  lemma ApplyMode(c: Control, op: Op)
    requires |c.registry| == ORGANS
    ensures Apply(c, op).mode
            == if op.OpTick? then NextMode(c.mode, VitalAlive(c.registry), EffectiveHealth(c.registry)) else c.mode
  {
  }

  /** From SAFE a run gets to NORMAL, or to DEGRADED, only by first entering RECOVERY at health 85 or
      more, in operation a, and then, in a later tick b, NORMAL at health 90 or more. */
  lemma {:induction false} OnlyThroughRecovery(c: Control, ops: seq<Op>, start: nat) returns (a: nat, b: nat)
    requires |c.registry| == ORGANS && start <= |ops|
    requires After(c, ops[..start]).mode == Safe
    ensures After(c, ops).mode != Safe ==> start <= a < |ops| && Moves(c, ops, a, Safe, Recovery, 85)
    ensures After(c, ops).mode == Normal || After(c, ops).mode == Degraded
            ==> a < b < |ops| && Moves(c, ops, b, Recovery, Normal, 90)
  {
    hide Apply, VitalAlive, EffectiveHealth;
    a, b := 0, 0;
    if start == |ops| {
      assert ops[..start] == ops;
    } else {
      var last := |ops| - 1;
      var init := ops[..last];
      assert init[..start] == ops[..start] && ops[..last + 1] == ops;
      ApplyMode(After(c, init), ops[last]);
      a, b := OnlyThroughRecovery(c, init, start);
      var before := After(c, init).mode;
      if before == Safe {
        a := last;
      } else {
        MovesPrefix(c, ops, last, a, Safe, Recovery, 85);
        if before == Recovery {
          b := last;
        } else {
          MovesPrefix(c, ops, last, b, Recovery, Normal, 90);
        }
      }
    }
  }
}
