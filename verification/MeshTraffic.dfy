/** Why gossip traffic dies out: a potential over the copies in flight that every delivery
    lowers, without any help from the dedup caches. */
module MeshTraffic {
  import opened Wrappers
  import opened Gossip
  import opened GossipAuth
  import opened ColonyNode
  import opened Mesh

  function Pow(b: nat, e: nat): (p: nat)
    ensures b > 0 ==> p > 0
  {
    if e == 0 then 1 else b * Pow(b, e - 1)
  }

  /** With at most `peers` targets and three attempts each, a relay creates at most this many copies. */
  function Branching(peers: nat): nat {
    MAX_ATTEMPTS * peers
  }

  function Weight(peers: nat, c: Copy): nat {
    Pow(Branching(peers) + 1, c.env.ttlHops)
  }

  function Potential(peers: nat, flight: seq<Copy>): nat {
    if flight == [] then 0
    else Potential(peers, flight[..|flight| - 1]) + Weight(peers, flight[|flight| - 1])
  }

  lemma {:induction false} PotentialConcat(peers: nat, a: seq<Copy>, b: seq<Copy>)
    ensures Potential(peers, a + b) == Potential(peers, a) + Potential(peers, b)
  {
    if b == [] {
      assert a + b == a;
    } else {
      assert (a + b)[..|a + b| - 1] == a + b[..|b| - 1];
      PotentialConcat(peers, a, b[..|b| - 1]);
    }
  }

  lemma PotentialWithout(peers: nat, flight: seq<Copy>, i: nat)
    requires i < |flight|
    ensures Potential(peers, flight) == Potential(peers, Without(flight, i)) + Weight(peers, flight[i])
  {
    assert flight == (flight[..i] + [flight[i]]) + flight[i + 1..];
    PotentialConcat(peers, flight[..i] + [flight[i]], flight[i + 1..]);
    PotentialConcat(peers, flight[..i], [flight[i]]);
    PotentialConcat(peers, flight[..i], flight[i + 1..]);
    assert [flight[i]][..0] == [];
    assert Potential(peers, [flight[i]]) == Weight(peers, flight[i]);
  }

  lemma {:induction false} PotentialOfEqual(peers: nat, out: seq<Copy>, env: Envelope)
    requires forall k :: 0 <= k < |out| ==> out[k].env == env
    ensures Potential(peers, out) == |out| * Pow(Branching(peers) + 1, env.ttlHops)
  {
    if out != [] {
      PotentialOfEqual(peers, out[..|out| - 1], env);
      var w := Pow(Branching(peers) + 1, env.ttlHops);
      assert (|out| - 1) * w + w == |out| * w;
    }
  }

  // ----- size of a fan-out ---------------------------------------------------

  function SumTo(out: seq<Copy>, targets: set<string>): nat
    decreases |out|
  {
    if out == [] then 0
    else SumTo(out[..|out| - 1], targets) + if out[|out| - 1].to in targets then 1 else 0
  }

  lemma {:induction false} SumSplit(out: seq<Copy>, targets: set<string>, t: string)
    requires t in targets
    ensures SumTo(out, targets) == SumTo(out, targets - {t}) + CopiesTo(out, t)
  {
    if out != [] {
      SumSplit(out[..|out| - 1], targets, t);
    }
  }

  lemma {:induction false} SumEmpty(out: seq<Copy>)
    ensures SumTo(out, {}) == 0
  {
    if out != [] {
      SumEmpty(out[..|out| - 1]);
    }
  }

  lemma {:induction false} SumBounded(out: seq<Copy>, targets: set<string>)
    requires forall t :: t in targets ==> CopiesTo(out, t) <= MAX_ATTEMPTS
    ensures SumTo(out, targets) <= MAX_ATTEMPTS * |targets|
  {
    if targets == {} {
      SumEmpty(out);
    } else {
      var t :| t in targets;
      SumSplit(out, targets, t);
      SumBounded(out, targets - {t});
      assert |targets| == |targets - {t}| + 1;
    }
  }

  lemma {:induction false} SumAll(out: seq<Copy>, targets: set<string>)
    requires forall k :: 0 <= k < |out| ==> out[k].to in targets
    ensures SumTo(out, targets) == |out|
  {
    if out != [] {
      SumAll(out[..|out| - 1], targets);
    }
  }

  lemma FanoutSize(out: seq<Copy>, env: Envelope, targets: set<string>, path: seq<string>, peers: Registry, bound: nat)
    requires Fanout(out, env, targets, path)
    requires targets <= peers.Keys && |peers| <= bound
    ensures |out| <= Branching(bound) == 3 * bound
  {
    SumBounded(out, targets);
    SumAll(out, targets);
    SubsetSize(targets, peers.Keys);
  }

  // ----- one step ------------------------------------------------------------

  ghost predicate TablesWithin(m: Mesh, bound: nat) {
    forall u :: u in m.nodes ==> |m.nodes[u].peers| <= bound
  }

  lemma Multiply(a: nat, b: nat, w: nat)
    requires a <= b
    ensures a * w <= b * w
  {
  }

  lemma OneMore(a: nat, w: nat)
    ensures (a + 1) * w == a * w + w
  {
  }

  /** Copies with one hop less, however many a relay may create, weigh less than the one they replace. */
  lemma RelayedWeighLess(bound: nat, out: seq<Copy>, relay: Envelope, c: Copy)
    requires |out| <= Branching(bound) && c.env.ttlHops == relay.ttlHops + 1
    requires forall k :: 0 <= k < |out| ==> out[k].env == relay
    ensures Potential(bound, out) < Weight(bound, c)
  {
    PotentialOfEqual(bound, out, relay);
    var w := Pow(Branching(bound) + 1, relay.ttlHops);
    hide Branching;
    Multiply(|out|, Branching(bound), w);
    OneMore(Branching(bound), w);
  }

  lemma RelayBranches(cfg: MeshConfig, m: Mesh, ev: Event, m': Mesh, bound: nat)
    requires ValidMesh(cfg, m) && Next(cfg, m, ev, m') && ev.Deliver? && TablesWithin(m', bound)
    requires Delivery(cfg, m, ev.i).1 == Accepted(true)
    ensures var c := m.flight[ev.i];
            && c.env.ttlHops > 1
            && |ev.out| <= Branching(bound)
            && forall k :: 0 <= k < |ev.out| ==> ev.out[k].env == RelayEnvelope(cfg.mac, cfg.node[c.to], c.env)
  {
    var c := m.flight[ev.i];
    var n' := Delivery(cfg, m, ev.i).0;
    assert m'.nodes[c.to] == n';
    FanoutSize(ev.out, RelayEnvelope(cfg.mac, cfg.node[c.to], c.env),
               Targets(cfg.node[c.to], n'.peers, Some(c.env.sender.peerId)), c.path + [c.to], n'.peers, bound);
  }

  /** Every delivery makes the potential strictly smaller, whether it is stored or dropped and
      whatever the caches hold. */
  lemma DeliveryLowers(cfg: MeshConfig, m: Mesh, ev: Event, m': Mesh, bound: nat)
    requires ValidMesh(cfg, m) && Next(cfg, m, ev, m') && ev.Deliver? && TablesWithin(m', bound)
    ensures Potential(bound, m'.flight) < Potential(bound, m.flight)
  {
    var c := m.flight[ev.i];
    PotentialWithout(bound, m.flight, ev.i);
    PotentialConcat(bound, Without(m.flight, ev.i), ev.out);
    if Delivery(cfg, m, ev.i).1 == Accepted(true) {
      RelayBranches(cfg, m, ev, m', bound);
      var relay := RelayEnvelope(cfg.mac, cfg.node[c.to], c.env);
      RelayKeepsSender(cfg.mac, cfg.node[c.to], c.env);
      RelayedWeighLess(bound, ev.out, relay, c);
    } else {
      assert Potential(bound, ev.out) == 0 < Weight(bound, c);
    }
  }

  /** The most an originated gossip can add. */
  function OriginateCost(cfg: MeshConfig, ev: Event, bound: nat): nat {
    if ev.Originate? && ev.u in cfg.node
    then Branching(bound) * Pow(Branching(bound) + 1, cfg.node[ev.u].maxHops)
    else 0
  }

  lemma StepCost(cfg: MeshConfig, m: Mesh, ev: Event, m': Mesh, bound: nat)
    requires ValidMesh(cfg, m) && Next(cfg, m, ev, m') && TablesWithin(m', bound)
    ensures Potential(bound, m'.flight) + (if ev.Deliver? then 1 else 0)
            <= Potential(bound, m.flight) + OriginateCost(cfg, ev, bound)
  {
    match ev {
      case Deliver(_, _) => DeliveryLowers(cfg, m, ev, m', bound);
      case Lose(i) => PotentialWithout(bound, m.flight, i);
      case Originate(u, id, threats, organisms, out) =>
        var env := NewEnvelope(cfg.mac, cfg.node[u], id, threats, organisms, m.clock[u]);
        var peers := LivePeers(m.nodes[u].peers, m.clock[u]);
        assert m'.nodes[u].peers == peers;
        PotentialConcat(bound, m.flight, out);
        FanoutSize(out, env, Targets(cfg.node[u], peers, None), [u], peers, bound);
        PotentialOfEqual(bound, out, env);
        Multiply(|out|, Branching(bound), Pow(Branching(bound) + 1, cfg.node[u].maxHops));
      case _ =>
    }
  }

  // ----- whole runs ----------------------------------------------------------

  function Deliveries(events: seq<Event>): nat {
    if events == [] then 0
    else Deliveries(events[..|events| - 1]) + if events[|events| - 1].Deliver? then 1 else 0
  }

  function Allowance(cfg: MeshConfig, events: seq<Event>, bound: nat): nat {
    if events == [] then 0
    else Allowance(cfg, events[..|events| - 1], bound) + OriginateCost(cfg, events[|events| - 1], bound)
  }

  /** In every run, with losses, restarts, joins and caches cleared at will, the deliveries made
      so far plus the potential of what is still in flight never exceed the potential at the
      start plus a fixed allowance per originated gossip. */
  lemma {:induction false} DeliveriesBounded(cfg: MeshConfig, states: seq<Mesh>, events: seq<Event>, bound: nat)
    requires Run(cfg, states, events)
    requires forall k :: 0 <= k < |states| ==> TablesWithin(states[k], bound)
    ensures Deliveries(events) + Potential(bound, states[|events|].flight)
            <= Potential(bound, states[0].flight) + Allowance(cfg, events, bound)
  {
    if events != [] {
      RunPrefix(cfg, states, events);
      DeliveriesBounded(cfg, states[..|events|], events[..|events| - 1], bound);
      StepCost(cfg, states[|events| - 1], events[|events| - 1], states[|events|], bound);
    }
  }
}
