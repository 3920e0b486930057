/** The control loop as it runs: the organ registry, the mode and the plane statuses updated in
    place by publishes and ticks (control-planes/src), proved against ControlPlanes. */
module ControlLoop {
  import opened ControlPlanes

  class ControlPlane {
    const registry: array<Snapshot>
    var mode: Mode
    var ticks: nat
    var reflex: PlaneStatus
    var strategic: PlaneStatus
    var autonomy: PlaneStatus

    ghost predicate Valid()
      reads this
    {
      registry.Length == ORGANS
    }

    ghost function View(): (c: Control)
      requires Valid()
      reads this, registry
      ensures |c.registry| == ORGANS
    {
      Control(registry[..], mode, ticks, reflex, strategic, autonomy)
    }

    /** organ_state_init and homeostasis_mode_init at boot */
    constructor ()
      ensures Valid() && fresh(registry) && ValidRegistry(View().registry)
      ensures Present(View().registry) == 0 && mode == Normal && ticks == 0
    {
      registry := new Snapshot[ORGANS](_ => Snapshot(false, 0, 0, 0));
      mode, ticks := Normal, 0;
      reflex := PlaneStatus(false, NoDecision, 0, 0);
      strategic := PlaneStatus(false, NoDecision, 0, 0);
      autonomy := PlaneStatus(false, NoDecision, 0, 0);
      new;
      NobodyPresent(registry[..]);
    }

    /** oo_organ_state.c, 21-40 */
    method Publish(organ: int, health: Byte, organMode: Byte)
      requires Valid()
      modifies registry
      ensures Valid()
      ensures View() == old(View()).(registry := ControlPlanes.Publish(old(View()).registry, organ, health, organMode))
    {
      if organ < 0 || organ >= ORGANS {
        return;
      }
      ghost var reg := View().registry;
      var clamped := if health > 100 then 100 else health;
      registry[organ] := Snapshot(true, clamped, organMode, (registry[organ].heartbeat + 1) % U32);
      assert View().registry == reg[organ := registry[organ]];
    }

    /** oo_organ_state.c, 49-61 */
    method AggregateHealth() returns (health: nat)
      requires Valid()
      ensures health == ControlPlanes.AggregateHealth(View().registry)
    {
      var sum, n := 0, 0;
      for i := 0 to ORGANS
        invariant sum == SumHealth(registry[..i]) && n == Present(registry[..i])
      {
        assert registry[..i + 1][..i] == registry[..i];
        if registry[i].present {
          sum := sum + registry[i].health;
          n := n + 1;
        }
      }
      assert registry[..ORGANS] == registry[..];
      if n == 0 {
        return 100;
      }
      return sum / n;
    }

    /** oo_organ_state.c, 63-77, and organ_autonomy.c, 23-35 */
    method WorstNonvitalHealth() returns (worst: nat)
      requires Valid()
      ensures worst == Worst(View().registry, ORGANS)
    {
      worst := 100;
      for i := 0 to ORGANS
        invariant worst == Worst(registry[..], i)
      {
        if i == UNITED || i == KERNEL || i == MEMORY || i == REFLEX || i == VITAL {
          continue;
        }
        if registry[i].present && registry[i].health < worst {
          worst := registry[i].health;
        }
      }
    }

    /** oo_organ_state.c, 79-92 */
    method VitalChainAlive() returns (alive: bool)
      requires Valid()
      ensures alive == VitalAlive(View().registry)
    {
      var chain := [UNITED, KERNEL, MEMORY, REFLEX, VITAL];
      for k := 0 to |chain|
        invariant forall j :: 0 <= j < k ==> !(registry[chain[j]].present && registry[chain[j]].health == 0)
      {
        if registry[chain[k]].present && registry[chain[k]].health == 0 {
          return false;
        }
      }
      forall i | 0 <= i < ORGANS && IsVital(i)
        ensures !(registry[i].present && registry[i].health == 0)
      {
        var j := if i == UNITED then 0 else if i == KERNEL then 1 else if i == MEMORY then 2
                 else if i == REFLEX then 3 else 4;
        assert chain[j] == i;
      }
      return true;
    }

    /** oo_homeostasis_mode.c, 27-79 */
    method EvaluateMode() returns (next: Mode)
      requires Valid()
      modifies this`mode
      ensures Valid() && next == mode
      ensures next == NextMode(old(mode), VitalAlive(View().registry), EffectiveHealth(View().registry))
    {
      var agg := AggregateHealth();
      var worst := WorstNonvitalHealth();
      var vital := VitalChainAlive();
      var health := if worst < agg then worst else agg;
      next := mode;
      if !vital {
        next := Safe;
      } else {
        match mode {
          case Normal =>
            if health < SAFE_BELOW {
              next := Safe;
            } else if health < DEGRADED_BELOW {
              next := Degraded;
            }
          case Degraded =>
            if health < SAFE_BELOW {
              next := Safe;
            } else if health >= NORMAL_ABOVE {
              next := Normal;
            }
          case Safe =>
            if health >= RECOVER_ABOVE {
              next := Recovery;
            }
          case Recovery =>
            if health < SAFE_BELOW {
              next := Safe;
            } else if health >= NORMAL_ABOVE {
              next := Normal;
            }
        }
      }
      if next != mode {
        mode := next;
      }
    }

    /** reflex_engine.c, 16-46 */
    method RunReflex(agg: nat) returns (d: Decision)
      requires Valid()
      modifies this`reflex
      ensures Valid() && reflex == ReflexPlane(VitalAlive(View().registry), agg) && d == reflex.decision
    {
      d := Hold;
      var reason, risk := 0, 0;
      var alive := VitalChainAlive();
      if !alive {
        d, reason, risk := Throttle, 1, 100;
      } else if agg < SAFE_BELOW {
        d, reason, risk := Throttle, 2, 90;
      } else if agg < DEGRADED_BELOW {
        d, reason, risk := Isolate, 3, 60;
      }
      reflex := PlaneStatus(true, d, reason, risk);
    }

    /** strategic_brain.c, 14-50 */
    method RunStrategic(m: Mode, agg: nat) returns (d: Decision)
      modifies this`strategic
      ensures strategic == StrategicPlane(m, agg) && d == strategic.decision
    {
      d := Hold;
      var reason, risk := 0, 0;
      match m {
        case Normal =>
          d := if agg >= NORMAL_ABOVE then Optimize else Hold;
          reason := if d == Optimize then 1 else 0;
          risk := 10;
        case Recovery => d, reason, risk := Recover, 2, 30;
        case _ => d, reason, risk := Hold, 3, 50;
      }
      strategic := PlaneStatus(true, d, reason, risk);
    }

    /** organ_autonomy.c, 15-54 */
    method RunAutonomy() returns (d: Decision)
      requires Valid()
      modifies this`autonomy
      ensures Valid() && autonomy == AutonomyPlane(Worst(View().registry, ORGANS)) && d == autonomy.decision
    {
      d := Hold;
      var reason, risk := 0, 0;
      var worst := WorstNonvitalHealth();
      if worst < SAFE_BELOW {
        d, reason, risk := Recover, 1, 40;
      } else if worst < DEGRADED_BELOW {
        d, reason, risk := Throttle, 2, 25;
      }
      autonomy := PlaneStatus(true, d, reason, risk);
    }

    /** control_tick.c, 27-47 */
    method Tick() returns (resolved: Decision)
      requires Valid()
      modifies this
      ensures Valid() && (View(), resolved) == ControlPlanes.Tick(old(View()))
    {
      ticks := (ticks + 1) % U32;
      var m := EvaluateMode();
      var health := AggregateHealth();
      var reflexDecision := RunReflex(health);
      var strategicDecision := RunStrategic(m, health);
      var autonomyDecision := RunAutonomy();
      resolved := reflexDecision;
      if Rank(autonomyDecision) < Rank(resolved) {
        resolved := autonomyDecision;
      }
      if Rank(strategicDecision) < Rank(resolved) {
        resolved := strategicDecision;
      }
    }
  }

  lemma {:induction false} NobodyPresent(reg: seq<Snapshot>)
    requires forall i :: 0 <= i < |reg| ==> !reg[i].present
    ensures Present(reg) == 0
  {
    if reg != [] {
      NobodyPresent(reg[..|reg| - 1]);
    }
  }
}
