/** The synapse network as it runs: node, link and recently-fired tables updated in place by
    nested loops (vital-baremetal/src/synapse_network.c), proved against SynapseNet. */
module SynapseNetwork {
  import opened SynapseNet
  import opened SynapseLearning

  class Network {
    const nodes: array<Neuron>
    const links: array<Link>
    const recentlyFired: array<bool>
    var nodeCount: nat
    var linkCount: nat

    ghost predicate Valid()
      reads this
    {
      && nodes.Length == MAX_NODES && links.Length == MAX_LINKS && recentlyFired.Length == MAX_NODES
      && nodeCount <= MAX_NODES && linkCount <= MAX_LINKS
      && nodes as object != links && nodes as object != recentlyFired && links as object != recentlyFired
    }

    ghost function View(): (n: Net)
      requires Valid()
      reads this, nodes, links, recentlyFired
      ensures ValidNet(n)
    {
      Net(nodes[..nodeCount], links[..linkCount], recentlyFired[..])
    }

    /** Lines 22-32 */
    constructor ()
      ensures Valid() && fresh(nodes) && fresh(links) && fresh(recentlyFired)
      ensures View() == Net([], [], seq(MAX_NODES, _ => false))
    {
      nodes := new Neuron[MAX_NODES](_ => Neuron(0, 0, 0, 0, 0));
      links := new Link[MAX_LINKS](_ => Link(0, 0, 0, 0));
      recentlyFired := new bool[MAX_NODES](_ => false);
      nodeCount, linkCount := 0, 0;
      new;
      assert recentlyFired[..] == seq(MAX_NODES, _ => false);
    }

    /** Lines 34-44 */
    method AddNode(id: Byte, threshold: Byte) returns (ok: bool)
      requires Valid()
      modifies this`nodeCount, nodes
      ensures Valid() && ok == (|old(View()).nodes| < MAX_NODES)
      ensures View() == if ok then old(View()).(nodes := old(View()).nodes + [Neuron(id, 0, threshold, 0, 0)])
                        else old(View())
    {
      if nodeCount >= MAX_NODES {
        return false;
      }
      nodes[nodeCount] := Neuron(id, 0, threshold, 0, 0);
      nodeCount := nodeCount + 1;
      return true;
    }

    /** Lines 46-55 */
    method Connect(from: Byte, to: Byte, weight: Int8, plasticity: Byte) returns (ok: bool)
      requires Valid()
      modifies this`linkCount, links
      ensures Valid() && ok == (|old(View()).links| < MAX_LINKS)
      ensures View() == if ok then old(View()).(links := old(View()).links + [Link(from, to, weight, plasticity)])
                        else old(View())
    {
      if linkCount >= MAX_LINKS {
        return false;
      }
      links[linkCount] := Link(from, to, weight, plasticity);
      linkCount := linkCount + 1;
      return true;
    }

    /** Lines 58-63 */
    method FindNode(id: Byte) returns (i: int)
      requires Valid()
      ensures i == SynapseNet.FindNode(View().nodes, id, 0)
    {
      i := 0;
      while i < nodeCount
        invariant 0 <= i <= nodeCount
        invariant SynapseNet.FindNode(View().nodes, id, 0) == SynapseNet.FindNode(View().nodes, id, i)
      {
        if nodes[i].id == id {
          return;
        }
        i := i + 1;
      }
      return -1;
    }

    /** Lines 65-74 */
    method Stimulate(id: Byte, signal: Int16)
      requires Valid()
      modifies nodes
      ensures Valid() && View() == old(View()).(nodes := SynapseNet.Stimulate(old(View()).nodes, id, signal))
    {
      var i := FindNode(id);
      if i == -1 {
        return;
      }
      var a := nodes[i].activation + signal;
      if a > 127 {
        a := 127;
      }
      if a < -128 {
        a := -128;
      }
      ghost var before := View().nodes;
      nodes[i] := nodes[i].(activation := a);
      assert View().nodes == before[i := nodes[i]];
    }

    /** Lines 76-112 */
    method Propagate()
      requires Valid()
      modifies nodes, recentlyFired
      ensures Valid() && View() == SynapseNet.Propagate(old(View()))
    {
      ghost var start := Quiet(View());
      for i := 0 to MAX_NODES
        invariant Valid() && View().nodes == start.nodes && View().links == start.links
        invariant forall k :: 0 <= k < i ==> !recentlyFired[k]
      {
        recentlyFired[i] := false;
      }
      assert View() == start;
      for i := 0 to nodeCount
        invariant Valid() && View() == Turns(start, i)
      {
        NodeTurn(i);
      }
    }

    /** The body of the pass for one node, lines 84-110 */
    method NodeTurn(i: nat)
      requires Valid() && i < nodeCount
      modifies nodes, recentlyFired
      ensures Valid() && View() == Turn(old(View()), i)
    {
      ghost var n := View();
      assert n.nodes[i] == nodes[i];
      if nodes[i].refractory > 0 {
        nodes[i] := nodes[i].(refractory := nodes[i].refractory - 1);
        assert View().nodes == n.nodes[i := nodes[i]];
        return;
      }
      if nodes[i].activation >= nodes[i].threshold {
        recentlyFired[i] := true;
        assert View().fired == n.fired[i := true];
        nodes[i] := nodes[i].(fireCount := (nodes[i].fireCount + 1) % U32, refractory := 3);
        assert View().nodes == n.nodes[i := nodes[i]];
        SendSignals(nodes[i].id);
      }
      LeakNode(i);
    }

    /** Lines 96-105 */
    method SendSignals(id: Byte)
      requires Valid()
      modifies nodes
      ensures Valid()
      ensures View() == old(View()).(nodes := Transmit(old(View()).nodes, old(View()).links, |old(View()).links|, id))
    {
      ghost var n := View();
      for j := 0 to linkCount
        invariant Valid() && View() == n.(nodes := Transmit(n.nodes, n.links, j, id))
      {
        assert n.links[j] == links[j];
        if links[j].from == id {
          Stimulate(links[j].to, links[j].weight);
        }
      }
    }

    /** Lines 109-110 */
    method LeakNode(i: nat)
      requires Valid() && i < nodeCount
      modifies nodes
      ensures Valid() && View() == old(View()).(nodes := Leak(old(View()).nodes, i))
    {
      ghost var n := View();
      assert n.nodes[i] == nodes[i];
      if nodes[i].activation > 0 {
        nodes[i] := nodes[i].(activation := nodes[i].activation - 1);
      } else if nodes[i].activation < 0 {
        nodes[i] := nodes[i].(activation := nodes[i].activation + 1);
      }
      assert View().nodes == n.nodes[i := nodes[i]];
    }

    /** The inner search of the learning loop, lines 121-124: the last node with that id. */
    method LastNode(id: Byte) returns (at: int)
      requires Valid()
      ensures at == LastIndex(View().nodes, id)
    {
      at := -1;
      for j := 0 to nodeCount
        invariant at == LastIndex(View().nodes[..j], id)
      {
        assert View().nodes[..j + 1][..j] == View().nodes[..j];
        if nodes[j].id == id {
          at := j;
        }
      }
      assert View().nodes[..nodeCount] == View().nodes;
    }

    /** Lines 114-150 */
    method HebbianLearning()
      requires Valid()
      modifies links
      ensures Valid() && View() == Learn(old(View()))
    {
      var total := LearnLinks();
      if total > WEIGHT_LIMIT {
        ScaleLinks(total);
      }
    }

    /** Lines 118-141 */
    method LearnLinks() returns (total: int)
      requires Valid()
      modifies links
      ensures Valid()
      ensures var n := old(View());
              && View() == n.(links := Learned(n, |n.links|))
              && total == TotalWeight(n.nodes, View().links)
    {
      hide LearnLink, Registered;
      ghost var n := View();
      total := 0;
      for i := 0 to linkCount
        invariant Valid() && View().nodes == n.nodes && View().fired == n.fired
        invariant forall k :: 0 <= k < i ==> links[k] == LearnLink(n, n.links[k])
        invariant forall k :: i <= k < linkCount ==> links[k] == n.links[k]
        invariant total == TotalWeight(n.nodes, Learned(n, i))
      {
        TotalStep(n, i);
        var counted := LearnAt(i, n);
        if counted {
          total := total + Abs(links[i].weight);
        }
      }
      forall k | 0 <= k < linkCount
        ensures View().links[k] == Learned(n, linkCount)[k]
      {
        LearnedAt(n, linkCount, k);
      }
    }

    /** Lines 119-138 for one link */
    method LearnAt(i: nat, ghost n: Net) returns (counted: bool)
      requires Valid() && i < linkCount && ValidNet(n)
      requires View().nodes == n.nodes && View().fired == n.fired
      modifies links
      ensures Valid()
      ensures links[i] == LearnLink(n, old(links[i])) && counted == Registered(n.nodes, old(links[i]))
      ensures forall k :: 0 <= k < links.Length && k != i ==> links[k] == old(links[k])
    {
      var from := LastNode(links[i].from);
      var to := LastNode(links[i].to);
      if from == -1 || to == -1 {
        return false;
      }
      assert n.fired[from] == recentlyFired[from] && n.fired[to] == recentlyFired[to];
      if recentlyFired[from] && recentlyFired[to] {
        var reinforcement := links[i].plasticity / 32 + 1;
        if links[i].weight < 127 - reinforcement {
          links[i] := links[i].(weight := links[i].weight + reinforcement);
        } else {
          links[i] := links[i].(weight := 127);
        }
      }
      if recentlyFired[from] && !recentlyFired[to] {
        if links[i].weight > -120 {
          links[i] := links[i].(weight := links[i].weight - 1);
        }
      }
      return true;
    }

    /** Lines 146-148 */
    method ScaleLinks(total: int)
      requires Valid() && total > WEIGHT_LIMIT
      modifies links
      ensures Valid() && View() == old(View()).(links := ScaleAll(old(View()).links, total))
    {
      ghost var n := View();
      for i := 0 to linkCount
        invariant Valid() && View().nodes == n.nodes && View().fired == n.fired
        invariant forall k :: 0 <= k < i ==> links[k] == n.links[k].(weight := ScaleWeight(n.links[k].weight, total))
        invariant forall k :: i <= k < linkCount ==> links[k] == n.links[k]
      {
        QuotientShrinks(links[i].weight, total);
        links[i] := links[i].(weight := Quotient(links[i].weight * SCALE, total));
      }
    }
  }

  lemma TotalStep(n: Net, i: nat)
    requires |n.nodes| <= |n.fired| && i < |n.links|
    ensures TotalWeight(n.nodes, Learned(n, i + 1))
            == TotalWeight(n.nodes, Learned(n, i))
               + if Registered(n.nodes, n.links[i]) then Abs(LearnLink(n, n.links[i]).weight) else 0
  {
    assert Learned(n, i + 1)[..i] == Learned(n, i);
  }
}
