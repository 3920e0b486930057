/** The state machine as it runs: a static state, a circular history and cycle counters
    (vital-baremetal/src/consciousness_fsm.c), proved against Consciousness. */
module ConsciousnessFsm {
  import opened Consciousness

  class Fsm {
    const history: array<Event>
    var state: State
    var head: nat
    var count: nat
    var entry: nat
    var cycles: nat

    ghost predicate Valid()
      reads this
    {
      history.Length == HISTORY && head < HISTORY && count <= HISTORY
    }

    ghost function View(): Mind
      reads this, history
    {
      Mind(state, history[..], head, count, entry, cycles)
    }

    /** The static storage at boot. */
    constructor ()
      ensures Valid() && fresh(history) && View() == Boot(history[..])
    {
      history := new Event[HISTORY](_ => Event(Void, Void, 0, 0));
      state, head, count, entry, cycles := Void, 0, 0, 0, 0;
    }

    /** Lines 38-45 */
    method Initialize()
      requires Valid()
      modifies this, history
      ensures Valid() && View() == Init(old(View()))
    {
      state := Embryonic;
      entry := 0;
      var _ := Transition(Aware, ORGAN_VITAL);
    }

    /** Lines 47-88 */
    method Transition(target: State, organ: Byte) returns (accepted: bool)
      requires Valid()
      modifies this, history
      ensures Valid() && (View(), accepted) == Consciousness.Transition(old(View()), target, organ)
    {
      if !Legal(state, target) {
        return false;
      }
      ghost var before := history[..];
      history[head] := Event(state, target, cycles, organ);
      assert history[..] == before[head := Event(state, target, cycles, organ)];
      head := (head + 1) % HISTORY;
      if count < HISTORY {
        count := count + 1;
      }
      state := target;
      entry := cycles;
      return true;
    }

    /** Lines 94-101 */
    method GetHistory(max: int) returns (events: seq<Event>)
      requires Valid() && -0x8000_0000 <= max < 0x8000_0000
      ensures events == Query(View(), max)
    {
      var n := if count < max % U32 then count else max;
      events := [];
      var i := 0;
      while i < n
        invariant 0 <= i && (n >= 0 ==> i <= n) && |events| == i
        invariant n == QueryLength(View(), max)
        invariant forall k :: 0 <= k < i ==> events[k] == Slot(View(), n, k)
      {
        events := events + [history[(head + HISTORY - n + i) % HISTORY]];
        i := i + 1;
      }
    }

    /** Lines 103-139 */
    method Tick()
      requires Valid()
      modifies this, history
      ensures Valid() && View() == Consciousness.Tick(old(View()))
    {
      cycles := (cycles + 1) % U64;
      var timeInState := (cycles - entry) % U64;
      match state {
        case Aware =>
          if timeInState > 50_000 {
            var _ := Transition(Dreaming, ORGAN_VITAL);
          }
        case Dreaming =>
          if timeInState > 10_000 {
            var _ := Transition(Aware, ORGAN_VITAL);
          }
        case Alert =>
          if timeInState > 5_000 {
            var _ := Transition(Focused, ORGAN_VITAL);
          }
        case _ =>
      }
    }
  }
}
