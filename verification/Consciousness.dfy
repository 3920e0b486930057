/** The consciousness state machine as a value (vital-baremetal/src/consciousness_fsm.c): nine
    states, a legality matrix and a ring of the last 64 transitions. */
module Consciousness {

  const HISTORY: int := 64
  const U32: int := 0x1_0000_0000
  const U64: int := 0x1_0000_0000_0000_0000

  type Byte = b: int | 0 <= b < 256

  const ORGAN_VITAL: Byte := 15

  datatype State = Void | Embryonic | Dormant | Dreaming | Aware | Focused | Alert | Survival | Transcend

  /** CONSCIOUSNESS_TRANSITION_MATRIX, row by row. */
  predicate Legal(from: State, to: State) {
    match from
    case Void => to == Embryonic
    case Embryonic => to == Dormant || to == Aware
    case Dormant => to == Dreaming || to == Aware
    case Dreaming => to == Dormant || to == Aware || to == Transcend
    case Aware => to == Dormant || to == Dreaming || to == Focused || to == Alert
    case Focused => to == Aware || to == Alert || to == Transcend
    case Alert => to == Aware || to == Focused || to == Survival
    case Survival => to == Void || to == Alert
    case Transcend => to == Dormant || to == Dreaming || to == Aware || to == Focused || to == Alert || to == Survival
  }

  datatype Event = Event(from: State, to: State, timestamp: nat, organ: Byte)

  datatype Mind = Mind(state: State, history: seq<Event>, head: nat, count: nat, entry: nat, cycles: nat)

  function Transition(m: Mind, target: State, organ: Byte): (Mind, bool)
    requires m.head < |m.history|
  {
    if !Legal(m.state, target) then (m, false)
    else (Mind(target, m.history[m.head := Event(m.state, target, m.cycles, organ)], (m.head + 1) % HISTORY,
               if m.count < HISTORY then m.count + 1 else m.count, m.cycles, m.cycles), true)
  }

  /** `consciousness_init` */
  function Init(m: Mind): Mind
    requires m.head < |m.history|
  {
    Transition(m.(state := Embryonic, entry := 0), Aware, ORGAN_VITAL).0
  }

  /** Where the passing of time leads, if anywhere. */
  function Drift(state: State, time: nat): State {
    match state
    case Aware => if time > 50_000 then Dreaming else Aware
    case Dreaming => if time > 10_000 then Aware else Dreaming
    case Alert => if time > 5_000 then Focused else Alert
    case _ => state
  }

  function Tick(m: Mind): Mind
    requires m.head < |m.history|
  {
    var cycles := (m.cycles + 1) % U64;
    var aged := m.(cycles := cycles);
    var next := Drift(m.state, (cycles - m.entry) % U64);
    if next == m.state then aged else Transition(aged, next, ORGAN_VITAL).0
  }

  /** How many events a query returns; the bound is compared as uint32_t. */
  function QueryLength(m: Mind, max: int): int {
    if m.count < max % U32 then m.count else max
  }

  /** The i-th of the last n slots written. */
  function Slot(m: Mind, n: nat, i: nat): Event
    requires |m.history| == HISTORY && n <= HISTORY
  {
    m.history[(m.head + HISTORY - n + i) % HISTORY]
  }

  function Query(m: Mind, max: int): seq<Event>
    requires |m.history| == HISTORY && m.count <= HISTORY && -0x8000_0000 <= max < 0x8000_0000
  {
    var count := QueryLength(m, max);
    if count < 0 then [] else seq(count, i requires 0 <= i < count => Slot(m, count, i))
  }

  // ----- the ring against the full record ------------------------------------

  function Min(a: nat, b: nat): nat {
    if a < b then a else b
  }

  /** The ring holds the end of the full record. */
  ghost predicate Remembers(m: Mind, trace: seq<Event>) {
    && |m.history| == HISTORY
    && m.count == Min(|trace|, HISTORY)
    && m.head == |trace| % HISTORY
    && forall p :: 0 <= p < |trace| && |trace| - HISTORY <= p ==> m.history[p % HISTORY] == trace[p]
  }

  /** Each event is legal, starts where the previous one ended, and the last one ended in `state`. */
  ghost predicate Chained(trace: seq<Event>, state: State) {
    && (forall k :: 0 <= k < |trace| ==> Legal(trace[k].from, trace[k].to))
    && (forall k :: 0 < k < |trace| ==> trace[k].from == trace[k - 1].to)
    && (trace != [] ==> trace[|trace| - 1].to == state)
  }

  lemma SlotsDiffer(p: nat, n: nat)
    requires p < n < p + HISTORY
    ensures p % HISTORY != n % HISTORY
  {
  }

  lemma NextHead(n: nat)
    ensures (n % HISTORY + 1) % HISTORY == (n + 1) % HISTORY
  {
  }

  lemma TransitionRemembers(m: Mind, trace: seq<Event>, target: State, organ: Byte)
    requires Remembers(m, trace) && Legal(m.state, target)
    ensures Remembers(Transition(m, target, organ).0, trace + [Event(m.state, target, m.cycles, organ)])
  {
    var m' := Transition(m, target, organ).0;
    var trace' := trace + [Event(m.state, target, m.cycles, organ)];
    NextHead(|trace|);
    forall p | 0 <= p < |trace'| && |trace'| - HISTORY <= p
      ensures m'.history[p % HISTORY] == trace'[p]
    {
      if p < |trace| {
        SlotsDiffer(p, |trace|);
      }
    }
  }

  lemma TransitionChained(m: Mind, trace: seq<Event>, target: State, organ: Byte)
    requires Chained(trace, m.state) && Legal(m.state, target)
    ensures Chained(trace + [Event(m.state, target, m.cycles, organ)], target)
  {
  }

  /** The automatic transitions are never refused. */
  lemma DriftIsLegal(state: State, time: nat)
    ensures Drift(state, time) != state ==> Legal(state, Drift(state, time))
  {
  }

  // ----- runs ----------------------------------------------------------------

  datatype Op = OpTransition(target: State, organ: Byte) | OpTick

  datatype World = World(mind: Mind, trace: seq<Event>)

  ghost predicate Inv(w: World) {
    Remembers(w.mind, w.trace) && Chained(w.trace, w.mind.state) && w.trace != []
  }

  function Request(w: World, target: State, organ: Byte): World
    requires w.mind.head < |w.mind.history|
  {
    if Legal(w.mind.state, target)
    then World(Transition(w.mind, target, organ).0, w.trace + [Event(w.mind.state, target, w.mind.cycles, organ)])
    else w
  }

  function Step(w: World, op: Op): World
    requires w.mind.head < |w.mind.history|
  {
    match op
    case OpTransition(target, organ) => Request(w, target, organ)
    case OpTick =>
      var cycles := (w.mind.cycles + 1) % U64;
      var aged := w.(mind := w.mind.(cycles := cycles));
      var next := Drift(w.mind.state, (cycles - w.mind.entry) % U64);
      if next == w.mind.state then aged else Request(aged, next, ORGAN_VITAL)
  }

  lemma RequestKeeps(w: World, target: State, organ: Byte)
    requires Inv(w)
    ensures Inv(Request(w, target, organ))
  {
    if Legal(w.mind.state, target) {
      TransitionRemembers(w.mind, w.trace, target, organ);
      TransitionChained(w.mind, w.trace, target, organ);
    }
  }

  lemma StepKeeps(w: World, op: Op)
    requires Inv(w)
    ensures Inv(Step(w, op))
    ensures op.OpTick? ==> Step(w, op).mind == Tick(w.mind)
  {
    match op {
      case OpTransition(target, organ) => RequestKeeps(w, target, organ);
      case OpTick =>
        var cycles := (w.mind.cycles + 1) % U64;
        var aged := w.(mind := w.mind.(cycles := cycles));
        DriftIsLegal(w.mind.state, (cycles - w.mind.entry) % U64);
        RequestKeeps(aged, Drift(w.mind.state, (cycles - w.mind.entry) % U64), ORGAN_VITAL);
    }
  }

  function Boot(history: seq<Event>): Mind {
    Mind(Void, history, 0, 0, 0, 0)
  }

  /** A run: boot, initialisation, then any requests and ticks. */
  function After(history: seq<Event>, ops: seq<Op>): (w: World)
    requires |history| == HISTORY
    ensures Inv(w)
  {
    if ops == [] then
      var born := World(Boot(history).(state := Embryonic), []);
      TransitionRemembers(born.mind, [], Aware, ORGAN_VITAL);
      TransitionChained(born.mind, [], Aware, ORGAN_VITAL);
      Request(born, Aware, ORGAN_VITAL)
    else
      var prev := After(history, ops[..|ops| - 1]);
      StepKeeps(prev, ops[|ops| - 1]);
      Step(prev, ops[|ops| - 1])
  }

  /** A query returns the latest events in order, however often the ring has wrapped: as many as
      there are, up to 64 and up to the caller's bound. A negative bound does not limit it. */
  lemma QueryIsTail(m: Mind, trace: seq<Event>, max: int)
    requires Remembers(m, trace) && -0x8000_0000 <= max < 0x8000_0000
    ensures var n := if max < 0 then Min(|trace|, 64) else Min(max, Min(|trace|, 64));
            Query(m, max) == trace[|trace| - n..]
  {
    var n := if max < 0 then Min(|trace|, HISTORY) else Min(max, Min(|trace|, HISTORY));
    LengthIs(m, max);
    forall i: nat | i < n
      ensures Slot(m, n, i) == trace[|trace| - n..][i]
    {
      TailSlot(|trace|, n, i);
    }
  }

  lemma LengthIs(m: Mind, max: int)
    requires m.count <= HISTORY && -0x8000_0000 <= max < 0x8000_0000
    ensures QueryLength(m, max) == if max < 0 then m.count else Min(max, m.count)
  {
  }

  lemma TailSlot(length: nat, n: nat, i: nat)
    requires i < n <= length && n <= HISTORY
    ensures (length % HISTORY + HISTORY - n + i) % HISTORY == (length - n + i) % HISTORY
  {
  }

  /** In every run the history query tells a true story: legal steps, each starting where the one
      before ended, the newest ending in the current state. */
  lemma HistoryIsTrue(history: seq<Event>, ops: seq<Op>, max: int)
    requires |history| == HISTORY && -0x8000_0000 <= max < 0x8000_0000
    ensures var w := After(history, ops);
            var told := Query(w.mind, max);
            && Chained(told, w.mind.state)
            && |told| == (if max < 0 then Min(|w.trace|, 64) else Min(max, Min(|w.trace|, 64)))
            && told == w.trace[|w.trace| - |told|..]
  {
    var w := After(history, ops);
    QueryIsTail(w.mind, w.trace, max);
  }

  /** Initialising again forges a link of the chain exactly when the mind was not embryonic. */
  lemma ReinitChainExact(m: Mind, trace: seq<Event>)
    requires Remembers(m, trace) && Chained(trace, m.state) && trace != []
    ensures Chained(trace + [Event(Embryonic, Aware, m.cycles, ORGAN_VITAL)], Init(m).state) <==> m.state == Embryonic
  {
    var trace' := trace + [Event(Embryonic, Aware, m.cycles, ORGAN_VITAL)];
    assert trace'[|trace|].from == Embryonic && trace'[|trace| - 1].to == m.state;
  }
}
