/** Firing rate and activation range over every run of the network. */
module SynapseRuns {
  import opened SynapseNet

  datatype Op =
    | AddNode(id: Byte, threshold: Byte)
    | Connect(from: Byte, to: Byte, weight: Int8, plasticity: Byte)
    | Stimulus(id: Byte, signal: Int16)
    | Pass
    | Hebb

  /** A network with, for each node, which of the passes since it was added made it fire. */
  datatype World = World(net: Net, trace: seq<seq<bool>>)

  function NetStep(n: Net, op: Op): Net
    requires |n.nodes| <= MAX_NODES && |n.nodes| <= |n.fired|
  {
    match op
    case AddNode(id, threshold) =>
      if |n.nodes| >= MAX_NODES then n else n.(nodes := n.nodes + [Neuron(id, 0, threshold, 0, 0)])
    case Connect(from, to, weight, plasticity) =>
      if |n.links| >= MAX_LINKS then n else n.(links := n.links + [Link(from, to, weight, plasticity)])
    case Stimulus(id, signal) => n.(nodes := Stimulate(n.nodes, id, signal))
    case Pass => Propagate(n)
    case Hebb => Learn(n)
  }

  function Extended(trace: seq<seq<bool>>, fired: seq<bool>): (trace': seq<seq<bool>>)
    requires |trace| <= |fired|
    ensures |trace'| == |trace|
  {
    seq(|trace|, i requires 0 <= i < |trace| => trace[i] + [fired[i]])
  }

  function Step(w: World, op: Op): World
    requires |w.net.nodes| <= MAX_NODES && |w.net.nodes| <= |w.net.fired| && |w.trace| == |w.net.nodes|
  {
    var net' := NetStep(w.net, op);
    World(net', match op
                case AddNode(_, _) => if |w.net.nodes| >= MAX_NODES then w.trace else w.trace + [[]]
                case Pass => Extended(w.trace, net'.fired)
                case _ => w.trace)
  }

  // ----- the invariant -------------------------------------------------------

  function Fired(trace: seq<bool>): nat {
    if trace == [] then 0 else Fired(trace[..|trace| - 1]) + if trace[|trace| - 1] then 1 else 0
  }

  /** Any two firings are at least four passes apart. */
  ghost predicate Spaced(trace: seq<bool>) {
    forall f, g :: 0 <= f < g < |trace| && trace[f] && trace[g] ==> g - f >= 4
  }

  /** The refractory counter remembers how recent the last firing was. */
  ghost predicate Remembers(v: Neuron, trace: seq<bool>) {
    && v.refractory <= 3
    && (forall f :: 0 <= f < |trace| && trace[f] ==> f + 4 <= |trace| + v.refractory)
    && v.fireCount == Fired(trace) % U32
  }

  ghost predicate Inv(w: World) {
    && ValidNet(w.net) && |w.trace| == |w.net.nodes|
    && (forall i :: 0 <= i < |w.net.nodes| ==> -128 <= w.net.nodes[i].activation <= 127)
    && (forall i :: 0 <= i < |w.net.nodes| ==> Remembers(w.net.nodes[i], w.trace[i]) && Spaced(w.trace[i]))
  }

  // ----- what a pass does to one node ----------------------------------------

  /** Stimulation touches activations only, and keeps them in range. */
  ghost predicate OnlyActivations(nodes: seq<Neuron>, nodes': seq<Neuron>) {
    && |nodes'| == |nodes|
    && (forall i :: 0 <= i < |nodes| ==> nodes'[i] == nodes[i].(activation := nodes'[i].activation))
    && (forall i :: 0 <= i < |nodes| && -128 <= nodes[i].activation <= 127 ==> -128 <= nodes'[i].activation <= 127)
  }

  lemma StimulateOnly(nodes: seq<Neuron>, id: Byte, signal: Int16)
    ensures OnlyActivations(nodes, Stimulate(nodes, id, signal))
  {
  }

  lemma {:induction false} TransmitOnly(nodes: seq<Neuron>, links: seq<Link>, n: nat, id: Byte)
    requires n <= |links|
    ensures OnlyActivations(nodes, Transmit(nodes, links, n, id))
  {
    if n > 0 {
      TransmitOnly(nodes, links, n - 1, id);
      StimulateOnly(Transmit(nodes, links, n - 1, id), links[n - 1].to, links[n - 1].weight);
    }
  }

  /** How its own turn moves a node's counters. */
  ghost predicate Turned(v: Neuron, v': Neuron, fired: bool) {
    if v.refractory > 0 then !fired && v'.refractory == v.refractory - 1 && v'.fireCount == v.fireCount
    else if fired then v'.refractory == 3 && v'.fireCount == (v.fireCount + 1) % U32
    else v'.refractory == 0 && v'.fireCount == v.fireCount
  }

  ghost predicate SameCounters(v: Neuron, v': Neuron) {
    v'.refractory == v.refractory && v'.fireCount == v.fireCount
  }

  lemma TurnEffect(n: Net, i: nat, k: nat)
    requires i < |n.nodes| <= |n.fired| && k < |n.nodes|
    ensures var n' := Turn(n, i);
            if k == i then !n.fired[i] ==> Turned(n.nodes[i], n'.nodes[i], n'.fired[i])
            else SameCounters(n.nodes[k], n'.nodes[k]) && n'.fired[k] == n.fired[k]
  {
    var v := n.nodes[i];
    if v.refractory == 0 && v.activation >= v.threshold {
      var lit := n.nodes[i := v.(fireCount := (v.fireCount + 1) % U32, refractory := 3)];
      TransmitOnly(lit, n.links, |n.links|, v.id);
    }
  }

  lemma TurnRange(n: Net, i: nat)
    requires i < |n.nodes| <= |n.fired|
    requires forall k :: 0 <= k < |n.nodes| ==> -128 <= n.nodes[k].activation <= 127
    ensures forall k :: 0 <= k < |n.nodes| ==> -128 <= Turn(n, i).nodes[k].activation <= 127
  {
    var v := n.nodes[i];
    if v.refractory == 0 && v.activation >= v.threshold {
      var lit := n.nodes[i := v.(fireCount := (v.fireCount + 1) % U32, refractory := 3)];
      TransmitOnly(lit, n.links, |n.links|, v.id);
    }
  }

  /** Within a pass every node has one turn; the turns of others leave its counters alone. */
  lemma {:induction false} TurnsEffect(n: Net, t: nat, k: nat)
    requires t <= |n.nodes| <= |n.fired| && k < |n.nodes| && !n.fired[k]
    ensures var n' := Turns(n, t);
            if k < t then Turned(n.nodes[k], n'.nodes[k], n'.fired[k])
            else SameCounters(n.nodes[k], n'.nodes[k]) && !n'.fired[k]
  {
    if t > 0 {
      TurnsEffect(n, t - 1, k);
      TurnEffect(Turns(n, t - 1), t - 1, k);
    }
  }

  lemma {:induction false} TurnsRange(n: Net, t: nat)
    requires t <= |n.nodes| <= |n.fired|
    requires forall k :: 0 <= k < |n.nodes| ==> -128 <= n.nodes[k].activation <= 127
    ensures forall k :: 0 <= k < |n.nodes| ==> -128 <= Turns(n, t).nodes[k].activation <= 127
  {
    if t > 0 {
      TurnsRange(n, t - 1);
      TurnRange(Turns(n, t - 1), t - 1);
    }
  }

  // ----- whole runs ----------------------------------------------------------

  lemma FiredSnoc(trace: seq<bool>, b: bool)
    ensures Fired(trace + [b]) == Fired(trace) + if b then 1 else 0
  {
    assert (trace + [b])[..|trace|] == trace;
  }

  lemma Counting(n: nat)
    ensures (n % U32 + 1) % U32 == (n + 1) % U32
  {
  }

  lemma TurnedRemembers(v: Neuron, v': Neuron, fired: bool, trace: seq<bool>)
    requires Remembers(v, trace) && Spaced(trace) && Turned(v, v', fired)
    ensures Remembers(v', trace + [fired]) && Spaced(trace + [fired])
  {
    FiredSnoc(trace, fired);
    Counting(Fired(trace));
  }

  lemma PassKeepsInv(w: World)
    requires Inv(w)
    ensures Inv(Step(w, Pass))
  {
    var quiet := Quiet(w.net);
    TurnsRange(quiet, |quiet.nodes|);
    var w' := Step(w, Pass);
    forall i | 0 <= i < |w.net.nodes|
      ensures Remembers(w'.net.nodes[i], w'.trace[i]) && Spaced(w'.trace[i])
    {
      TurnsEffect(quiet, |quiet.nodes|, i);
      TurnedRemembers(w.net.nodes[i], w'.net.nodes[i], w'.net.fired[i], w.trace[i]);
    }
  }

  lemma AddNodeKeepsInv(w: World, id: Byte, threshold: Byte)
    requires Inv(w)
    ensures Inv(Step(w, AddNode(id, threshold)))
  {
    var w' := Step(w, AddNode(id, threshold));
    forall i | 0 <= i < |w'.net.nodes|
      ensures Remembers(w'.net.nodes[i], w'.trace[i]) && Spaced(w'.trace[i])
    {
      if i < |w.net.nodes| {
        assert w'.net.nodes[i] == w.net.nodes[i] && w'.trace[i] == w.trace[i];
      }
    }
  }

  lemma StimulusKeepsInv(w: World, id: Byte, signal: Int16)
    requires Inv(w)
    ensures Inv(Step(w, Stimulus(id, signal)))
  {
    StimulateOnly(w.net.nodes, id, signal);
    var w' := Step(w, Stimulus(id, signal));
    forall i | 0 <= i < |w'.net.nodes|
      ensures Remembers(w'.net.nodes[i], w'.trace[i]) && Spaced(w'.trace[i])
    {
      assert Remembers(w.net.nodes[i], w.trace[i]);
    }
  }

  lemma StepKeepsInv(w: World, op: Op)
    requires Inv(w)
    ensures Inv(Step(w, op))
  {
    match op {
      case Pass => PassKeepsInv(w);
      case Stimulus(id, signal) => StimulusKeepsInv(w, id, signal);
      case AddNode(id, threshold) => AddNodeKeepsInv(w, id, threshold);
      case Connect(_, _, _, _) => assert Step(w, op).net.nodes == w.net.nodes;
      case Hebb => assert Step(w, op).net.nodes == w.net.nodes;
    }
  }

  /** Runs from the initialised network. */
  function After(ops: seq<Op>): (w: World)
    ensures Inv(w)
  {
    if ops == [] then World(Net([], [], seq(MAX_NODES, _ => false)), [])
    else
      var prev := After(ops[..|ops| - 1]);
      StepKeepsInv(prev, ops[|ops| - 1]);
      Step(prev, ops[|ops| - 1])
  }

  /** Spaced firings are rare: at most one in four, rounded up. */
  lemma {:induction false} SpacedIsRare(trace: seq<bool>)
    requires Spaced(trace)
    ensures 4 * Fired(trace) <= |trace| + 3
    decreases |trace|
  {
    if trace != [] {
      var last := |trace| - 1;
      var init := trace[..last];
      assert forall k :: 0 <= k < last ==> init[k] == trace[k];
      if !trace[last] {
        SpacedIsRare(init);
      } else if last < 4 {
        NoneFired(init);
      } else {
        var cut := trace[..last - 3];
        assert forall k :: 0 <= k < |cut| ==> cut[k] == trace[k];
        SpacedIsRare(cut);
        SilentTail(init, last - 3);
        assert init[..last - 3] == cut;
      }
    }
  }

  lemma {:induction false} NoneFired(trace: seq<bool>)
    requires forall k :: 0 <= k < |trace| ==> !trace[k]
    ensures Fired(trace) == 0
  {
    if trace != [] {
      NoneFired(trace[..|trace| - 1]);
    }
  }

  lemma {:induction false} SilentTail(trace: seq<bool>, from: nat)
    requires from <= |trace| && forall k :: from <= k < |trace| ==> !trace[k]
    ensures Fired(trace) == Fired(trace[..from])
  {
    if from < |trace| {
      SilentTail(trace[..|trace| - 1], from);
      assert trace[..|trace| - 1][..from] == trace[..from];
    } else {
      assert trace[..from] == trace;
    }
  }

  /** In every run each node fires at most once in any four consecutive passes, so at most
      ceil(n / 4) times in n passes, its counter says how often (modulo 2^32), and its activation
      stays within an int8_t although stimulation cascades within a pass. */
  lemma FiringRate(ops: seq<Op>, i: nat)
    requires i < |After(ops).net.nodes|
    ensures var w := After(ops);
            && Spaced(w.trace[i])
            && 4 * Fired(w.trace[i]) <= |w.trace[i]| + 3
            && w.net.nodes[i].fireCount == Fired(w.trace[i]) % U32
            && -128 <= w.net.nodes[i].activation <= 127
  {
    var w := After(ops);
    assert Remembers(w.net.nodes[i], w.trace[i]) && Spaced(w.trace[i]);
    SpacedIsRare(w.trace[i]);
  }
}
