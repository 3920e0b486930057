/** What Hebbian learning guarantees about the weights, for every network. */
module SynapseLearning {
  import opened SynapseNet

  /** Sum of the absolute weights of all links. */
  function AbsSum(links: seq<Link>): nat {
    if links == [] then 0 else AbsSum(links[..|links| - 1]) + Abs(links[|links| - 1].weight)
  }

  predicate AllRegistered(nodes: seq<Neuron>, links: seq<Link>) {
    forall i :: 0 <= i < |links| ==> Registered(nodes, links[i])
  }

  // ----- what learning leaves alone ------------------------------------------

  lemma {:induction false} LearnedAt(n: Net, k: nat, i: nat)
    requires i < k <= |n.links| && |n.nodes| <= |n.fired|
    ensures Learned(n, k)[i] == LearnLink(n, n.links[i])
  {
    if i < k - 1 {
      LearnedAt(n, k - 1, i);
    }
  }

  /** The topology is untouched. */
  lemma LearnKeepsTopology(n: Net, i: nat)
    requires |n.nodes| <= |n.fired| && i < |n.links|
    ensures var l := Learn(n).links[i];
            l.from == n.links[i].from && l.to == n.links[i].to && l.plasticity == n.links[i].plasticity
    ensures Learn(n).nodes == n.nodes && Learn(n).fired == n.fired
  {
    LearnedAt(n, |n.links|, i);
  }

  /** Scaling never flips a sign and never increases a magnitude. */
  lemma ScalingShrinks(n: Net, i: nat)
    requires |n.nodes| <= |n.fired| && i < |n.links|
    ensures var before := LearnLink(n, n.links[i]).weight;
            var after := Learn(n).links[i].weight;
            && Abs(after) <= Abs(before)
            && (after > 0 ==> before > 0) && (after < 0 ==> before < 0)
  {
    LearnedAt(n, |n.links|, i);
    var total := TotalWeight(n.nodes, Learned(n, |n.links|));
    if total > WEIGHT_LIMIT {
      QuotientShrinks(LearnLink(n, n.links[i]).weight, total);
    }
  }

  // ----- the budget ----------------------------------------------------------

  /** Truncated shares of a total add up to at most the scaled total. */
  lemma {:induction false} ScaledTotal(nodes: seq<Neuron>, links: seq<Link>, total: int)
    requires total > WEIGHT_LIMIT
    ensures total * TotalWeight(nodes, ScaleAll(links, total)) <= SCALE * TotalWeight(nodes, links)
  {
    if links != [] {
      hide ScaleWeight, Abs;
      var init, last := links[..|links| - 1], links[|links| - 1];
      var scaled := ScaleAll(links, total);
      assert scaled[..|scaled| - 1] == ScaleAll(init, total);
      ScaledTotal(nodes, init, total);
      ScaledShare(last.weight, total);
      if Registered(nodes, last) {
        Distributes(total, TotalWeight(nodes, ScaleAll(init, total)), Abs(ScaleWeight(last.weight, total)));
      }
    }
  }

  lemma ScaledShare(w: Int8, total: int)
    requires total > WEIGHT_LIMIT
    ensures total * Abs(ScaleWeight(w, total)) <= SCALE * Abs(w)
  {
    QuotientShrinks(w, total);
    ShareIs(Abs(w) * SCALE, total);
    hide Share, Quotient;
  }

  lemma Distributes(total: int, a: int, b: int)
    ensures total * (a + b) == total * a + total * b
  {
  }

  lemma AtMost(total: int, sum: nat)
    requires total > 0 && total * sum <= SCALE * total
    ensures sum <= SCALE
  {
    if sum > SCALE {
      Products(total, SCALE + 1, sum);
    }
  }

  /** After learning, the links whose ends are both known weigh at most 1000 in all, and at most
      950 if the weights were scaled. */
  lemma WithinBudget(n: Net)
    requires |n.nodes| <= |n.fired|
    ensures TotalWeight(n.nodes, Learn(n).links) <= WEIGHT_LIMIT
    ensures TotalWeight(n.nodes, Learned(n, |n.links|)) > WEIGHT_LIMIT ==> TotalWeight(n.nodes, Learn(n).links) <= SCALE
  {
    var links := Learned(n, |n.links|);
    var total := TotalWeight(n.nodes, links);
    if total > WEIGHT_LIMIT {
      ScaledTotal(n.nodes, links, total);
      AtMost(total, TotalWeight(n.nodes, ScaleAll(links, total)));
    }
  }

  lemma {:induction false} RegisteredTotal(nodes: seq<Neuron>, links: seq<Link>)
    requires AllRegistered(nodes, links)
    ensures TotalWeight(nodes, links) == AbsSum(links)
  {
    if links != [] {
      RegisteredTotal(nodes, links[..|links| - 1]);
    }
  }

  /** With every link registered the whole network is within budget. */
  lemma NetworkWithinBudget(n: Net)
    requires |n.nodes| <= |n.fired| && AllRegistered(n.nodes, n.links)
    ensures AbsSum(Learn(n).links) <= WEIGHT_LIMIT
    ensures TotalWeight(n.nodes, Learned(n, |n.links|)) > WEIGHT_LIMIT ==> AbsSum(Learn(n).links) <= SCALE
  {
    WithinBudget(n);
    forall i | 0 <= i < |n.links|
      ensures Registered(n.nodes, Learn(n).links[i])
    {
      LearnKeepsTopology(n, i);
      assert Registered(n.nodes, n.links[i]);
    }
    RegisteredTotal(n.nodes, Learn(n).links);
  }

  // ----- when a link has an unknown end --------------------------------------

  /** The same links with other weights. */
  function Reweigh(links: seq<Link>, weights: seq<Int8>): (links': seq<Link>)
    requires |weights| == |links|
    ensures |links'| == |links|
  {
    seq(|links|, i requires 0 <= i < |links| => links[i].(weight := weights[i]))
  }

  /** A topology keeps the budget when it does so for every table of fired nodes and all weights. */
  ghost predicate KeepsBudget(nodes: seq<Neuron>, links: seq<Link>) {
    forall fired: seq<bool>, weights: seq<Int8> :: |fired| == MAX_NODES && |weights| == |links| ==>
      |nodes| <= MAX_NODES ==> AbsSum(Learn(Net(nodes, Reweigh(links, weights), fired)).links) <= WEIGHT_LIMIT
  }

  lemma {:induction false} FewLinks(links: seq<Link>)
    ensures AbsSum(links) <= 128 * |links|
  {
    if links != [] {
      FewLinks(links[..|links| - 1]);
    }
  }

  lemma ReweighedRegistered(nodes: seq<Neuron>, links: seq<Link>, weights: seq<Int8>)
    requires |weights| == |links| && AllRegistered(nodes, links)
    ensures AllRegistered(nodes, Reweigh(links, weights))
  {
    forall i | 0 <= i < |links|
      ensures Registered(nodes, Reweigh(links, weights)[i])
    {
      assert Registered(nodes, links[i]);
    }
  }

  /** Weight -128 on link u and on seven others, 0 elsewhere. */
  function Heavy(u: nat, i: nat): Int8 {
    if i == u || i < (if u < 8 then 8 else 7) then -128 else 0
  }

  function HeavyCount(u: nat, n: nat): nat {
    if n == 0 then 0 else HeavyCount(u, n - 1) + if Heavy(u, n - 1) == -128 then 1 else 0
  }

  lemma {:induction false} HeavyCountIs(u: nat, n: nat)
    ensures u < 8 ==> HeavyCount(u, n) == if n < 8 then n else 8
    ensures u >= 8 ==> HeavyCount(u, n) == (if n < 7 then n else 7) + if n > u then 1 else 0
  {
    if n > 0 {
      HeavyCountIs(u, n - 1);
    }
  }

  function HeavyWeights(u: nat, n: nat): (w: seq<Int8>)
    ensures |w| == n
  {
    seq(n, i requires 0 <= i < n => Heavy(u, i))
  }

  lemma {:induction false} HeavySum(links: seq<Link>, u: nat)
    requires forall i :: 0 <= i < |links| ==> links[i].weight == Heavy(u, i)
    ensures AbsSum(links) == 128 * HeavyCount(u, |links|)
  {
    if links != [] {
      HeavySum(links[..|links| - 1], u);
    }
  }

  lemma {:induction false} HeavyTotal(nodes: seq<Neuron>, links: seq<Link>, u: nat, n: nat)
    requires n <= |links| && u < |links| && !Registered(nodes, links[u])
    requires forall i :: 0 <= i < |links| ==> links[i].weight == Heavy(u, i)
    ensures TotalWeight(nodes, links[..n]) <= 128 * (HeavyCount(u, n) - if n > u then 1 else 0)
  {
    if n > 0 {
      assert links[..n][..n - 1] == links[..n - 1];
      HeavyTotal(nodes, links, u, n - 1);
    }
  }

  /** With nobody fired, learning only scales. */
  lemma {:induction false} NothingFired(n: Net, k: nat)
    requires |n.nodes| <= |n.fired| && k <= |n.links|
    requires forall i :: 0 <= i < |n.fired| ==> !n.fired[i]
    ensures Learned(n, k) == n.links[..k]
  {
    if k > 0 {
      NothingFired(n, k - 1);
    }
  }

  /** Eight links and one of them with an unknown end: weights exist that end above the limit. */
  lemma UnregisteredOverflows(nodes: seq<Neuron>, links: seq<Link>, u: nat)
    requires |nodes| <= MAX_NODES && |links| >= 8
    requires u < |links| && !Registered(nodes, links[u])
    ensures !KeepsBudget(nodes, links)
  {
    var weights := HeavyWeights(u, |links|);
    var fired := seq(MAX_NODES, _ => false);
    var heavy := Reweigh(links, weights);
    var n := Net(nodes, heavy, fired);
    NothingFired(n, |heavy|);
    assert heavy[..|heavy|] == heavy;
    HeavyTotal(nodes, heavy, u, |heavy|);
    HeavyCountIs(u, |heavy|);
    HeavySum(heavy, u);
    assert Learn(n).links == heavy;
    assert AbsSum(Learn(n).links) == 1024;
  }

  /** A topology keeps the whole network within 1000 for all weights and firings if and only if
      every link is registered or there are at most seven links. */
  lemma BudgetExact(nodes: seq<Neuron>, links: seq<Link>)
    requires |nodes| <= MAX_NODES
    ensures KeepsBudget(nodes, links) <==> AllRegistered(nodes, links) || |links| <= 7
  {
    if AllRegistered(nodes, links) || |links| <= 7 {
      forall fired: seq<bool>, weights: seq<Int8> | |fired| == MAX_NODES && |weights| == |links|
        ensures AbsSum(Learn(Net(nodes, Reweigh(links, weights), fired)).links) <= WEIGHT_LIMIT
      {
        var n := Net(nodes, Reweigh(links, weights), fired);
        if AllRegistered(nodes, links) {
          ReweighedRegistered(nodes, links, weights);
          NetworkWithinBudget(n);
        } else {
          FewLinks(Learn(n).links);
        }
      }
    } else {
      var u :| 0 <= u < |links| && !Registered(nodes, links[u]);
      UnregisteredOverflows(nodes, links, u);
    }
  }
}
