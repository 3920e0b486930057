/** The transition matrix as a table, what initialisation does, and where an idle mind drifts over time. */
module ConsciousnessLaws {
  import opened Consciousness

  function Row(from: State): seq<int> {
    match from
    case Void =>      [0, 1, 0, 0, 0, 0, 0, 0, 0]
    case Embryonic => [0, 0, 1, 0, 1, 0, 0, 0, 0]
    case Dormant =>   [0, 0, 0, 1, 1, 0, 0, 0, 0]
    case Dreaming =>  [0, 0, 1, 0, 1, 0, 0, 0, 1]
    case Aware =>     [0, 0, 1, 1, 0, 1, 1, 0, 0]
    case Focused =>   [0, 0, 0, 0, 1, 0, 1, 0, 1]
    case Alert =>     [0, 0, 0, 0, 1, 1, 0, 1, 0]
    case Survival =>  [1, 0, 0, 0, 0, 0, 1, 0, 0]
    case Transcend => [0, 0, 1, 1, 1, 1, 1, 1, 0]
  }

  function Number(s: State): (n: nat)
    ensures n < 9
  {
    match s
    case Void => 0
    case Embryonic => 1
    case Dormant => 2
    case Dreaming => 3
    case Aware => 4
    case Focused => 5
    case Alert => 6
    case Survival => 7
    case Transcend => 8
  }

  /** A transition is legal exactly where the table holds a one. */
  lemma LegalIsTable(from: State, to: State)
    ensures |Row(from)| == 9 && (Legal(from, to) <==> Row(from)[Number(to)] == 1)
  {
  }

  /** A path of legal transitions. */
  ghost predicate Path(states: seq<State>) {
    states != [] && forall i :: 0 <= i < |states| - 1 ==> Legal(states[i], states[i + 1])
  }

  /** Every state can be reached from every other. */
  lemma AllReachable(from: State, to: State) returns (path: seq<State>)
    ensures Path(path) && path[0] == from && path[|path| - 1] == to
  {
    var there := ToAware(from);
    var back := FromAware(to);
    path := there + back[1..];
    forall i | 0 <= i < |path| - 1
      ensures Legal(path[i], path[i + 1])
    {
      if i >= |there| - 1 {
        assert path[i] == back[i - (|there| - 1)] && path[i + 1] == back[i - (|there| - 1) + 1];
      }
    }
  }

  lemma ToAware(from: State) returns (path: seq<State>)
    ensures Path(path) && path[0] == from && path[|path| - 1] == Aware
  {
    match from {
      case Aware => path := [Aware];
      case Void => path := [Void, Embryonic, Aware];
      case Survival => path := [Survival, Alert, Aware];
      case _ => path := [from, Aware];
    }
  }

  lemma FromAware(to: State) returns (path: seq<State>)
    ensures Path(path) && path[0] == Aware && path[|path| - 1] == to
  {
    match to {
      case Aware => path := [Aware];
      case Void => path := [Aware, Alert, Survival, Void];
      case Embryonic => path := [Aware, Alert, Survival, Void, Embryonic];
      case Survival => path := [Aware, Alert, Survival];
      case Transcend => path := [Aware, Focused, Transcend];
      case _ => path := [Aware, to];
    }
  }

  /** A transition is taken if and only if the table allows it; it then writes one event with the cycle count, moves
      to the target and restarts the time in state. */
  lemma TransitionExact(m: Mind, target: State, organ: Byte)
    requires m.head < |m.history| == 64
    ensures var (m', taken) := Transition(m, target, organ);
            && (taken <==> Row(m.state)[Number(target)] == 1)
            && (!taken ==> m' == m)
            && (taken ==>
                  && m'.state == target && m'.entry == m.cycles == m'.cycles
                  && m'.history == m.history[m.head := Event(m.state, target, m.cycles, organ)]
                  && m'.head == (m.head + 1) % 64
                  && m'.count == if m.count < 64 then m.count + 1 else m.count)
  {
    LegalIsTable(m.state, target);
    hide Legal;
  }

  /** Initialising leaves the mind AWARE, with an event from EMBRYONIC, whatever it was. */
  lemma InitExact(m: Mind)
    requires m.head < |m.history|
    ensures Init(m).state == Aware && Init(m).entry == m.cycles == Init(m).cycles
    ensures Init(m).history == m.history[m.head := Event(Embryonic, Aware, m.cycles, 15)]
  {
  }

  // ----- an idle mind --------------------------------------------------------

  /** n ticks without any request. */
  function Idle(m: Mind, n: nat): (m': Mind)
    requires |m.history| == HISTORY && m.head < HISTORY
    ensures |m'.history| == HISTORY && m'.head < HISTORY
  {
    if n == 0 then m else Tick(Idle(m, n - 1))
  }

  /** One tick: the count goes up by one, and the state changes exactly when its time is over: more than 50,000
      cycles of AWARE, 10,000 of DREAMING, 5,000 of ALERT. */
  lemma TickExact(m: Mind)
    requires |m.history| == HISTORY && m.head < HISTORY && m.cycles + 1 < U64 && m.entry <= m.cycles
    ensures U64 == 0x1_0000_0000_0000_0000
    ensures var m', time := Tick(m), m.cycles + 1 - m.entry;
            var next := if m.state == Aware && time > 50_000 then Dreaming
                        else if m.state == Dreaming && time > 10_000 then Aware
                        else if m.state == Alert && time > 5_000 then Focused else m.state;
            && m'.cycles == m.cycles + 1 && m'.state == next
            && m'.entry == if next == m.state then m.entry else m.cycles + 1
  {
    SmallCount(m.cycles + 1);
    SmallCount(m.cycles + 1 - m.entry);
  }

  lemma SmallCount(n: nat)
    requires n < U64
    ensures n % U64 == n
  {
  }

  lemma NextPhase(n: nat)
    ensures (n + 1) % 60_002 == if n % 60_002 == 60_001 then 0 else n % 60_002 + 1
    ensures (n + 1) / 60_002 == if n % 60_002 == 60_001 then n / 60_002 + 1 else n / 60_002
  {
  }

  /** A mind that has just become AWARE and is left alone alternates for ever: 50,001 cycles of AWARE, 10,001 of
      DREAMING. */
  lemma {:induction false} IdleAlternates(m: Mind, n: nat)
    requires |m.history| == HISTORY && m.head < HISTORY && m.cycles + n < U64
    requires m.state == Aware && m.entry == m.cycles
    ensures var m', phase := Idle(m, n), n % 60_002;
            && m'.cycles == m.cycles + n
            && m'.state == (if phase <= 50_000 then Aware else Dreaming)
            && m'.entry == m.cycles + n - (if phase <= 50_000 then phase else phase - 50_001)
  {
    if n > 0 {
      IdleAlternates(m, n - 1);
      NextPhase(n - 1);
      TickExact(Idle(m, n - 1));
      hide Tick;
    }
  }

  /** An ALERT that nothing follows becomes FOCUSED after 5,001 cycles, and stays so. */
  lemma {:induction false} AlertSubsides(m: Mind, n: nat)
    requires |m.history| == HISTORY && m.head < HISTORY && m.cycles + n < U64
    requires m.state == Alert && m.entry == m.cycles
    ensures var m' := Idle(m, n);
            && m'.cycles == m.cycles + n
            && m'.state == (if n <= 5_000 then Alert else Focused)
            && m'.entry == (if n <= 5_000 then m.cycles else m.cycles + 5_001)
  {
    if n > 0 {
      AlertSubsides(m, n - 1);
      TickExact(Idle(m, n - 1));
      hide Tick;
    }
  }

  /** Every other state lasts until a request. */
  lemma {:induction false} OthersStay(m: Mind, n: nat)
    requires |m.history| == HISTORY && m.head < HISTORY && m.cycles + n < U64 && m.entry <= m.cycles
    requires m.state != Aware && m.state != Dreaming && m.state != Alert
    ensures Idle(m, n).state == m.state && Idle(m, n).entry == m.entry && Idle(m, n).cycles == m.cycles + n
    ensures Idle(m, n).history == m.history
  {
    if n > 0 {
      OthersStay(m, n - 1);
      TickExact(Idle(m, n - 1));
    }
  }
}
