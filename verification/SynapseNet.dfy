/** The synapse network as a value, and what each operation of
    vital-baremetal/src/synapse_network.c makes of it. */
module SynapseNet {

  const MAX_NODES: int := 16
  const MAX_LINKS: int := 64
  const U32: int := 0x1_0000_0000
  const WEIGHT_LIMIT: int := 1000
  const SCALE: int := 950

  type Byte = b: int | 0 <= b < 256
  type Int8 = w: int | -128 <= w < 128
  type Int16 = s: int | -0x8000 <= s < 0x8000

  datatype Neuron = Neuron(id: Byte, activation: Int16, threshold: Byte, refractory: Byte, fireCount: nat)

  datatype Link = Link(from: Byte, to: Byte, weight: Int8, plasticity: Byte)

  /** `fired` is the table of nodes that fired in the last pass. */
  datatype Net = Net(nodes: seq<Neuron>, links: seq<Link>, fired: seq<bool>)

  ghost predicate ValidNet(n: Net) {
    |n.nodes| <= MAX_NODES && |n.links| <= MAX_LINKS && |n.fired| == MAX_NODES
  }

  // ----- stimulation ---------------------------------------------------------

  /** `find_node`: the first node with that id. */
  function FindNode(nodes: seq<Neuron>, id: Byte, from: nat): (i: int)
    requires from <= |nodes|
    ensures i == -1 || (from <= i < |nodes| && nodes[i].id == id)
    decreases |nodes| - from
  {
    if from == |nodes| then -1
    else if nodes[from].id == id then from
    else FindNode(nodes, id, from + 1)
  }

  function Clamp(x: int): (c: Int16)
    ensures -128 <= c <= 127
  {
    if x > 127 then 127 else if x < -128 then -128 else x
  }

  function Stimulate(nodes: seq<Neuron>, id: Byte, signal: Int16): (nodes': seq<Neuron>)
    ensures |nodes'| == |nodes|
  {
    var i := FindNode(nodes, id, 0);
    if i == -1 then nodes
    else nodes[i := nodes[i].(activation := Clamp(nodes[i].activation + signal))]
  }

  // ----- one pass ------------------------------------------------------------

  /** The first n links, in order: those that leave node `id` stimulate their targets. */
  function Transmit(nodes: seq<Neuron>, links: seq<Link>, n: nat, id: Byte): (nodes': seq<Neuron>)
    requires n <= |links|
    ensures |nodes'| == |nodes|
  {
    if n == 0 then nodes
    else
      var before := Transmit(nodes, links, n - 1, id);
      if links[n - 1].from == id then Stimulate(before, links[n - 1].to, links[n - 1].weight) else before
  }

  /** The leak: one step toward zero. */
  function Decay(a: Int16): Int16 {
    if a > 0 then a - 1 else if a < 0 then a + 1 else a
  }

  function Leak(nodes: seq<Neuron>, i: nat): (nodes': seq<Neuron>)
    requires i < |nodes|
    ensures |nodes'| == |nodes|
  {
    nodes[i := nodes[i].(activation := Decay(nodes[i].activation))]
  }

  /** The turn of node i within a pass. */
  function Turn(n: Net, i: nat): (n': Net)
    requires i < |n.nodes| && i < |n.fired|
    ensures |n'.nodes| == |n.nodes| && |n'.fired| == |n.fired| && n'.links == n.links
  {
    var v := n.nodes[i];
    if v.refractory > 0 then n.(nodes := n.nodes[i := v.(refractory := v.refractory - 1)])
    else if v.activation >= v.threshold then
      var lit := n.nodes[i := v.(fireCount := (v.fireCount + 1) % U32, refractory := 3)];
      Net(Leak(Transmit(lit, n.links, |n.links|, v.id), i), n.links, n.fired[i := true])
    else n.(nodes := Leak(n.nodes, i))
  }

  /** The first k turns of a pass. */
  function Turns(n: Net, k: nat): (n': Net)
    requires k <= |n.nodes| && k <= |n.fired|
    ensures |n'.nodes| == |n.nodes| && |n'.fired| == |n.fired| && n'.links == n.links
  {
    if k == 0 then n else Turn(Turns(n, k - 1), k - 1)
  }

  function Quiet(n: Net): Net {
    n.(fired := seq(MAX_NODES, _ => false))
  }

  function Propagate(n: Net): (n': Net)
    requires |n.nodes| <= MAX_NODES
    ensures |n'.nodes| == |n.nodes| && |n'.fired| == MAX_NODES && n'.links == n.links
  {
    Turns(Quiet(n), |n.nodes|)
  }

  // ----- learning ------------------------------------------------------------

  /** The node table entry the learning loop settles on: the last one with that id. */
  function LastIndex(nodes: seq<Neuron>, id: Byte): (i: int)
    ensures i == -1 || (0 <= i < |nodes| && nodes[i].id == id)
    ensures i == -1 ==> forall j :: 0 <= j < |nodes| ==> nodes[j].id != id
  {
    if nodes == [] then -1
    else if nodes[|nodes| - 1].id == id then |nodes| - 1
    else LastIndex(nodes[..|nodes| - 1], id)
  }

  predicate Registered(nodes: seq<Neuron>, l: Link) {
    LastIndex(nodes, l.from) != -1 && LastIndex(nodes, l.to) != -1
  }

  function Strengthen(w: Int8, plasticity: Byte): Int8 {
    var reinforcement := plasticity / 32 + 1;
    if w < 127 - reinforcement then w + reinforcement else 127
  }

  function Weaken(w: Int8): Int8 {
    if w > -120 then w - 1 else w
  }

  /** Hebbian strengthening or depression of one link; a link with an unknown end is skipped. */
  function LearnLink(n: Net, l: Link): Link
    requires |n.nodes| <= |n.fired|
  {
    if !Registered(n.nodes, l) then l
    else
      var from, to := n.fired[LastIndex(n.nodes, l.from)], n.fired[LastIndex(n.nodes, l.to)];
      l.(weight := if from && to then Strengthen(l.weight, l.plasticity)
                   else if from then Weaken(l.weight) else l.weight)
  }

  /** The first k links after the learning loop. */
  function Learned(n: Net, k: nat): (links: seq<Link>)
    requires k <= |n.links| && |n.nodes| <= |n.fired|
    ensures |links| == k
  {
    if k == 0 then [] else Learned(n, k - 1) + [LearnLink(n, n.links[k - 1])]
  }

  function Abs(x: int): nat {
    if x < 0 then -x else x
  }

  /** `total_weight_abs`: skipped links do not enter it. */
  function TotalWeight(nodes: seq<Neuron>, links: seq<Link>): nat {
    if links == [] then 0
    else
      var last := links[|links| - 1];
      TotalWeight(nodes, links[..|links| - 1]) + if Registered(nodes, last) then Abs(last.weight) else 0
  }

  /** Division of magnitudes. */
  function Share(a: nat, b: int): nat
    requires b > 0
  {
    a / b
  }

  /** Division as in C, rounded toward zero. The cast to int8_t loses nothing: see QuotientShrinks. */
  function Quotient(a: int, b: int): int
    requires b > 0
  {
    if 0 <= a then Share(a, b) else -(Share(-a, b) as int)
  }

  lemma QuotientShrinks(w: int, total: int)
    requires total > WEIGHT_LIMIT
    ensures Abs(Quotient(w * SCALE, total)) <= Abs(w)
    ensures Abs(Quotient(w * SCALE, total)) == Share(Abs(w) * SCALE, total)
    ensures Quotient(w * SCALE, total) > 0 ==> w > 0
    ensures Quotient(w * SCALE, total) < 0 ==> w < 0
  {
    ShareBound(Abs(w), total);
    QuotientSign(w * SCALE, total);
    hide Quotient, Share;
  }

  /** The quotient has the magnitude of the quotient of magnitudes, and no sign that the dividend has not. */
  lemma QuotientSign(a: int, b: int)
    requires b > 0
    ensures Abs(Quotient(a, b)) == Share(Abs(a), b)
    ensures Quotient(a, b) > 0 ==> a > 0
    ensures Quotient(a, b) < 0 ==> a < 0
  {
    NoShare(b);
    hide Share;
  }

  lemma NoShare(b: int)
    requires b > 0
    ensures Share(0, b) == 0
  {
  }

  /** Share is the whole part of the quotient. */
  lemma ShareIs(a: nat, b: int)
    requires b > 0
    ensures b * Share(a, b) <= a < b * Share(a, b) + b
  {
  }

  lemma ShareBound(q: nat, total: int)
    requires total > WEIGHT_LIMIT
    ensures Share(q * SCALE, total) <= q
  {
    var share := Share(q * SCALE, total);
    ShareIs(q * SCALE, total);
    hide Share;
    Products(q + 1, SCALE, total);
    if share > q {
      Products(total, q + 1, share);
    }
  }

  lemma Products(n: nat, x: nat, y: nat)
    requires x <= y
    ensures n * x <= n * y
  {
  }

  function ScaleWeight(w: Int8, total: int): (w': Int8)
    requires total > WEIGHT_LIMIT
  {
    QuotientShrinks(w, total);
    Quotient(w * SCALE, total)
  }

  function ScaleAll(links: seq<Link>, total: int): (links': seq<Link>)
    requires total > WEIGHT_LIMIT
    ensures |links'| == |links|
  {
    seq(|links|, i requires 0 <= i < |links| => links[i].(weight := ScaleWeight(links[i].weight, total)))
  }

  function Learn(n: Net): (n': Net)
    requires |n.nodes| <= |n.fired|
    ensures |n'.links| == |n.links|
  {
    var links := Learned(n, |n.links|);
    var total := TotalWeight(n.nodes, links);
    n.(links := if total > WEIGHT_LIMIT then ScaleAll(links, total) else links)
  }
}
