/** What stimulation, firing and learning do to single neurons and links, in literal terms, and over runs. */
module SynapseLaws {
  import opened SynapseNet
  import opened SynapseLearning
  import opened SynapseRuns

  // ----- learning one link ---------------------------------------------------

  /** j is the last node with that id; learning looks at that one. */
  ghost predicate LastWith(nodes: seq<Neuron>, id: Byte, j: int) {
    0 <= j < |nodes| && nodes[j].id == id && forall k :: j < k < |nodes| ==> nodes[k].id != id
  }

  lemma {:induction false} LastIndexIsLast(nodes: seq<Neuron>, id: Byte)
    ensures LastIndex(nodes, id) != -1 ==> LastWith(nodes, id, LastIndex(nodes, id))
    ensures forall j :: LastWith(nodes, id, j) ==> LastIndex(nodes, id) == j
  {
    if nodes != [] {
      var init := nodes[..|nodes| - 1];
      assert forall k :: 0 <= k < |init| ==> init[k] == nodes[k];
      LastIndexIsLast(init, id);
      forall j | LastWith(nodes, id, j)
        ensures LastIndex(nodes, id) == j
      {
        if nodes[|nodes| - 1].id != id {
          assert LastWith(init, id, j);
        }
      }
    }
  }

  /** The last node with that id fired in the last pass. */
  ghost predicate FiredLast(n: Net, id: Byte) {
    exists j :: LastWith(n.nodes, id, j) && j < |n.fired| && n.fired[j]
  }

  ghost predicate Known(nodes: seq<Neuron>, l: Link) {
    (exists j :: LastWith(nodes, l.from, j)) && (exists j :: LastWith(nodes, l.to, j))
  }

  /** What learning makes of a weight: firing together strengthens it by a thirty-second of the plasticity and
      one more, up to 127; firing without the other end weakens it by one, down to -120; nothing else moves it. */
  ghost predicate Taught(n: Net, l: Link, w: int) {
    if !Known(n.nodes, l) then w == l.weight
    else if FiredLast(n, l.from) && FiredLast(n, l.to) then
      w == if l.weight + l.plasticity / 32 + 1 > 127 then 127 else l.weight + l.plasticity / 32 + 1
    else if FiredLast(n, l.from) then w == if l.weight > -120 then l.weight - 1 else l.weight
    else w == l.weight
  }

  lemma RegisteredIsKnown(nodes: seq<Neuron>, l: Link)
    ensures Registered(nodes, l) <==> Known(nodes, l)
  {
    LastIndexIsLast(nodes, l.from);
    LastIndexIsLast(nodes, l.to);
  }

  lemma FiredIs(n: Net, id: Byte)
    requires |n.nodes| <= |n.fired| && LastIndex(n.nodes, id) != -1
    ensures FiredLast(n, id) <==> n.fired[LastIndex(n.nodes, id)]
  {
    LastIndexIsLast(n.nodes, id);
  }

  lemma LearnLinkTeaches(n: Net, l: Link)
    requires |n.nodes| <= |n.fired|
    ensures Taught(n, l, LearnLink(n, l).weight)
  {
    RegisteredIsKnown(n.nodes, l);
    if Registered(n.nodes, l) {
      FiredIs(n, l.from);
      FiredIs(n, l.to);
    }
    hide LastIndex, FiredLast, Known;
  }

  function Abs(x: int): int {
    if x < 0 then -x else x
  }

  /** The total of the magnitudes over the links with known ends. */
  ghost function TotalOf(n: Net, ws: seq<int>): int
    requires |ws| <= |n.links|
  {
    if ws == [] then 0
    else
      TotalOf(n, ws[..|ws| - 1])
      + if Known(n.nodes, n.links[|ws| - 1]) then Abs(ws[|ws| - 1]) else 0
  }

  /** y is x * 950 / total, rounded toward zero. */
  predicate Scaled(x: int, y: int, total: int) {
    && (x >= 0 ==> y >= 0) && (x <= 0 ==> y <= 0)
    && Abs(y) * total <= Abs(x) * 950 < (Abs(y) + 1) * total
  }

  function Weights(links: seq<Link>): (ws: seq<int>)
    ensures |ws| == |links| && forall i :: 0 <= i < |links| ==> ws[i] == links[i].weight
  {
    seq(|links|, i requires 0 <= i < |links| => links[i].weight)
  }

  lemma {:induction false} TotalIs(n: Net, links: seq<Link>)
    requires |links| <= |n.links|
    requires forall i :: 0 <= i < |links| ==> links[i].from == n.links[i].from && links[i].to == n.links[i].to
    ensures TotalWeight(n.nodes, links) == TotalOf(n, Weights(links))
  {
    if links != [] {
      var init := links[..|links| - 1];
      TotalIs(n, init);
      assert Weights(links)[..|links| - 1] == Weights(init);
      RegisteredIsKnown(n.nodes, links[|links| - 1]);
      RegisteredIsKnown(n.nodes, n.links[|links| - 1]);
      hide Registered, LastWith;
    }
  }

  lemma QuotientScales(x: int, total: int)
    requires total > WEIGHT_LIMIT
    ensures Scaled(x, Quotient(x * SCALE, total), total)
  {
    var a := if x < 0 then -x else x;
    ShareIs(a * SCALE, total);
    QuotientSign(x * SCALE, total);
    Commutes(total, Share(a * SCALE, total));
    hide Share, Quotient;
  }

  lemma Commutes(total: int, s: int)
    ensures total * s == s * total && (s + 1) * total == s * total + total
  {
  }

  /** Learning as a whole: every link is taught by the firings of the last pass, and only if the magnitudes of
      the taught weights of the links with known ends then exceed 1000 are all weights scaled by 950 over that
      total. */
  lemma LearnExact(n: Net) returns (ws: seq<int>)
    requires |n.nodes| <= |n.fired|
    ensures |ws| == |n.links| == |Learn(n).links|
    ensures forall i :: 0 <= i < |ws| ==> Taught(n, n.links[i], ws[i])
    ensures forall i :: 0 <= i < |ws| ==>
              if TotalOf(n, ws) <= 1000 then Learn(n).links[i].weight == ws[i]
              else Scaled(ws[i], Learn(n).links[i].weight, TotalOf(n, ws))
  {
    var links := Learned(n, |n.links|);
    forall i | 0 <= i < |links|
      ensures links[i] == LearnLink(n, n.links[i]) && Taught(n, n.links[i], links[i].weight)
    {
      LearnedAt(n, |n.links|, i);
      LearnLinkTeaches(n, n.links[i]);
    }
    hide Taught, Scaled, LearnLink, Learned;
    forall i | 0 <= i < |links|
      ensures links[i].from == n.links[i].from && links[i].to == n.links[i].to
    {
      LinkKeepsEnds(n, n.links[i]);
    }
    TotalIs(n, links);
    ws := Weights(links);
    var total := TotalWeight(n.nodes, links);
    if total > WEIGHT_LIMIT {
      forall i | 0 <= i < |ws|
        ensures Scaled(ws[i], Learn(n).links[i].weight, total)
      {
        QuotientScales(ws[i], total);
      }
    }
  }

  lemma LinkKeepsEnds(n: Net, l: Link)
    requires |n.nodes| <= |n.fired|
    ensures LearnLink(n, l).from == l.from && LearnLink(n, l).to == l.to && LearnLink(n, l).plasticity == l.plasticity
  {
  }

  // ----- learning over runs --------------------------------------------------

  /** At a learning step the ends of link i are known, fired together, and nothing is scaled. */
  ghost predicate Bonding(n: Net, i: nat) {
    && i < |n.links| && |n.nodes| <= |n.fired|
    && Known(n.nodes, n.links[i]) && FiredLast(n, n.links[i].from) && FiredLast(n, n.links[i].to)
    && TotalWeight(n.nodes, Learned(n, |n.links|)) <= 1000
  }

  function Lessons(ops: seq<Op>): nat {
    if ops == [] then 0 else Lessons(ops[..|ops| - 1]) + if ops[|ops| - 1] == Hebb then 1 else 0
  }

  lemma BondingStrengthens(n: Net, i: nat)
    requires Bonding(n, i)
    ensures Learn(n).links[i].weight
            == if n.links[i].weight + n.links[i].plasticity / 32 + 1 > 127 then 127
               else n.links[i].weight + n.links[i].plasticity / 32 + 1
  {
    LearnLinkTeaches(n, n.links[i]);
    LearnedAt(n, |n.links|, i);
    hide Known, FiredLast, LearnLink;
  }

  /** Between learning steps a link's weight stays as it is. */
  lemma OtherOpsKeep(w: World, op: Op, i: nat)
    requires Inv(w) && i < |w.net.links| && op != Hebb
    ensures i < |Step(w, op).net.links| && Step(w, op).net.links[i] == w.net.links[i]
  {
  }

  lemma AfterOne(ops: seq<Op>)
    requires ops != []
    ensures After(ops) == Step(After(ops[..|ops| - 1]), ops[|ops| - 1])
  {
  }

  /** A link whose ends fire together before every learning step of a stretch of the run, without scaling, never
      falls in it and gains at least one per step until it is at 127. */
  lemma {:induction false} TogetherNeverFalls(ops: seq<Op>, start: nat, i: nat)
    requires start <= |ops| && i < |After(ops[..start]).net.links|
    requires forall k :: start <= k < |ops| && ops[k] == Hebb ==> Bonding(After(ops[..k]).net, i)
    ensures i < |After(ops).net.links|
    ensures var before, after := After(ops[..start]).net.links[i].weight, After(ops).net.links[i].weight;
            after >= before && (after == 127 || after >= before + Lessons(ops[start..]))
  {
    if start == |ops| {
      assert ops[..start] == ops && ops[start..] == [];
    } else {
      var init := ops[..|ops| - 1];
      assert init[..start] == ops[..start] && ops[start..][..|ops[start..]| - 1] == init[start..];
      forall k | start <= k < |init| && init[k] == Hebb
        ensures Bonding(After(init[..k]).net, i)
      {
        assert init[..k] == ops[..k];
      }
      hide Bonding;
      TogetherNeverFalls(init, start, i);
      AfterOne(ops);
      hide After, Step;
      if ops[|ops| - 1] == Hebb {
        HebbStep(After(init), i);
      } else {
        OtherOpsKeep(After(init), ops[|ops| - 1], i);
      }
    }
  }

  lemma HebbStep(w: World, i: nat)
    requires Inv(w) && i < |w.net.links| && Bonding(w.net, i)
    ensures i < |Step(w, Hebb).net.links|
    ensures Step(w, Hebb).net.links[i].weight >= w.net.links[i].weight
    ensures Step(w, Hebb).net.links[i].weight == 127 || Step(w, Hebb).net.links[i].weight > w.net.links[i].weight
  {
    BondingStrengthens(w.net, i);
  }

  /** The tables hold sixteen nodes and sixty-four links; what does not fit is refused. */
  lemma CapacityExact(n: Net, id: Byte, threshold: Byte, l: Link)
    requires |n.nodes| <= 16 && |n.nodes| <= |n.fired|
    ensures NetStep(n, AddNode(id, threshold)).nodes
            == if |n.nodes| == 16 then n.nodes else n.nodes + [Neuron(id, 0, threshold, 0, 0)]
    ensures NetStep(n, Connect(l.from, l.to, l.weight, l.plasticity)).links
            == if |n.links| >= 64 then n.links else n.links + [l]
  {
  }

  // ----- stimulation and firing ----------------------------------------------

  /** j is the first node with that id; stimulation reaches that one. */
  ghost predicate FirstWith(nodes: seq<Neuron>, id: Byte, j: int) {
    0 <= j < |nodes| && nodes[j].id == id && forall k :: 0 <= k < j ==> nodes[k].id != id
  }

  lemma {:induction false} FindNodeIsFirst(nodes: seq<Neuron>, id: Byte, from: nat)
    requires from <= |nodes| && forall k :: 0 <= k < from ==> nodes[k].id != id
    ensures FindNode(nodes, id, from) != -1 ==> FirstWith(nodes, id, FindNode(nodes, id, from))
    ensures forall j :: FirstWith(nodes, id, j) ==> FindNode(nodes, id, from) == j
    decreases |nodes| - from
  {
    if from < |nodes| && nodes[from].id != id {
      FindNodeIsFirst(nodes, id, from + 1);
    }
  }

  /** A signal is added to the activation of the first node with the id, cut to -128 .. 127, and changes nothing
      else. */
  lemma StimulateExact(nodes: seq<Neuron>, id: Byte, signal: Int16)
    ensures (forall j :: !FirstWith(nodes, id, j)) ==> Stimulate(nodes, id, signal) == nodes
    ensures forall j :: FirstWith(nodes, id, j) ==>
              var a := nodes[j].activation + signal;
              var cut := if a > 127 then 127 else if a < -128 then -128 else a;
              Stimulate(nodes, id, signal) == nodes[j := nodes[j].(activation := cut)]
  {
    FindNodeIsFirst(nodes, id, 0);
  }

  /** The weights of the first k links from one id to another. */
  function WeightBetween(links: seq<Link>, k: nat, from: Byte, to: Byte): int
    requires k <= |links|
  {
    if k == 0 then 0
    else WeightBetween(links, k - 1, from, to)
         + if links[k - 1].from == from && links[k - 1].to == to then links[k - 1].weight else 0
  }

  /** A firing node adds to the activation of each node the weights of all its links to it, as long as no partial
      sum leaves the range. */
  lemma {:induction false} TransmitAdds(nodes: seq<Neuron>, links: seq<Link>, k: nat, from: Byte, j: nat)
    requires k <= |links| && j < |nodes| && FirstWith(nodes, nodes[j].id, j)
    requires forall m :: 0 <= m <= k ==>
               -128 <= nodes[j].activation + WeightBetween(links, m, from, nodes[j].id) <= 127
    ensures Transmit(nodes, links, k, from)[j]
            == nodes[j].(activation := nodes[j].activation + WeightBetween(links, k, from, nodes[j].id))
  {
    if k > 0 {
      TransmitAdds(nodes, links, k - 1, from, j);
      TransmitKeepsIds(nodes, links, k - 1, from);
      var before := Transmit(nodes, links, k - 1, from);
      assert forall m :: 0 <= m < |nodes| ==> before[m].id == nodes[m].id;
      if links[k - 1].from == from {
        FindNodeIsFirst(before, links[k - 1].to, 0);
        if links[k - 1].to == nodes[j].id {
          assert FirstWith(before, links[k - 1].to, j);
        }
      }
    }
  }

  lemma {:induction false} TransmitKeepsIds(nodes: seq<Neuron>, links: seq<Link>, k: nat, from: Byte)
    requires k <= |links|
    ensures forall m :: 0 <= m < |nodes| ==> Transmit(nodes, links, k, from)[m].id == nodes[m].id
  {
    TransmitOnly(nodes, links, k, from);
  }

  /** A node's own turn. Resting: one step less of rest. Below its threshold: its activation leaks by one toward
      zero. Otherwise it fires, rests for three passes, and its links stimulate their targets before it leaks. */
  lemma TurnExact(n: Net, i: nat)
    requires i < |n.nodes| <= |n.fired|
    ensures var v, n' := n.nodes[i], Turn(n, i);
            var fires := v.refractory == 0 && v.activation >= v.threshold;
            && (n'.fired == if fires then n.fired[i := true] else n.fired)
            && (v.refractory > 0 ==> n'.nodes == n.nodes[i := v.(refractory := v.refractory - 1)])
            && (v.refractory == 0 && !fires ==>
                  n'.nodes == n.nodes[i := v.(activation := Toward0(v.activation))])
            && (fires ==>
                  && var lit := n.nodes[i := v.(fireCount := (v.fireCount + 1) % 0x1_0000_0000, refractory := 3)];
                     var sent := Transmit(lit, n.links, |n.links|, v.id);
                     n'.nodes == sent[i := sent[i].(activation := Toward0(sent[i].activation))])
  {
  }

  function Toward0(a: Int16): Int16 {
    if a > 0 then a - 1 else if a < 0 then a + 1 else 0
  }

  // ----- fading --------------------------------------------------------------

  /** No node rests, none reaches its threshold, and no threshold is 0, which fading could reach from below. */
  ghost predicate Calm(nodes: seq<Neuron>) {
    forall i :: 0 <= i < |nodes| ==>
      nodes[i].refractory == 0 && nodes[i].activation < nodes[i].threshold && 0 < nodes[i].threshold
  }

  lemma {:induction false} CalmTurns(n: Net, k: nat)
    requires k <= |n.nodes| <= |n.fired| && Calm(n.nodes)
    ensures Turns(n, k).fired == n.fired
    ensures forall i :: 0 <= i < |n.nodes| ==>
              Turns(n, k).nodes[i]
              == if i < k then n.nodes[i].(activation := Toward0(n.nodes[i].activation)) else n.nodes[i]
  {
    if k > 0 {
      CalmTurns(n, k - 1);
      TurnExact(Turns(n, k - 1), k - 1);
    }
  }

  function Passes(n: Net, k: nat): (n': Net)
    requires |n.nodes| <= MAX_NODES
    ensures |n'.nodes| == |n.nodes|
  {
    if k == 0 then n else Propagate(Passes(n, k - 1))
  }

  function Faded(a: int, k: nat): int {
    if a > k then a - k else if -a > k then a + k else 0
  }

  /** Left alone, a calm network fades: after k passes every activation is k steps nearer to zero, or there, and
      nobody has fired. */
  lemma {:induction false} CalmFades(n: Net, k: nat)
    requires |n.nodes| <= MAX_NODES && Calm(n.nodes)
    ensures Calm(Passes(n, k).nodes) && Passes(n, k).links == n.links
    ensures forall i :: 0 <= i < |n.nodes| ==>
              && Passes(n, k).nodes[i].activation == Faded(n.nodes[i].activation, k)
              && Passes(n, k).nodes[i].threshold == n.nodes[i].threshold
              && Passes(n, k).nodes[i].fireCount == n.nodes[i].fireCount
  {
    if k > 0 {
      CalmFades(n, k - 1);
      var before := Passes(n, k - 1);
      CalmTurns(Quiet(before), |before.nodes|);
    }
  }
}
