/** The mesh of colony nodes as a state machine: node states, node clocks and the copies
    in flight. A step is an event carrying every choice the environment makes. */
module Mesh {
  import opened Wrappers
  import opened Gossip
  import opened GossipAuth
  import opened ColonyNode

  datatype MeshConfig = MeshConfig(mac: Mac, node: map<string, NodeConfig>)

  /** A copy on the wire. `path` is history: the nodes that have transmitted this gossip on
      its way, the originator first and the last transmitter last. */
  datatype Copy = Copy(env: Envelope, to: string, path: seq<string>)

  datatype Mesh = Mesh(nodes: map<string, Node>, clock: map<string, Instant>, flight: seq<Copy>)

  datatype Event =
    /** one round of the gossip loop */
    | Originate(u: string, id: string, threats: seq<string>, organisms: nat, out: seq<Copy>)
    /** the i-th copy in flight reaches its addressee */
    | Deliver(i: nat, out: seq<Copy>)
    | Lose(i: nat)
    | Tick(u: string, elapsed: nat)
    | Restarted(u: string)
    /** POST /mesh/peer */
    | Join(u: string, peer: PeerRegistration)
    /** the dedup cache is cleared, as a full cache may be */
    | Forget(u: string)

  ghost predicate ValidConfig(cfg: MeshConfig) {
    forall u :: u in cfg.node ==> cfg.node[u].nodeId == u && cfg.node[u].maxHops > 0
  }

  ghost predicate ValidMesh(cfg: MeshConfig, m: Mesh) {
    m.nodes.Keys == cfg.node.Keys == m.clock.Keys
  }

  function CopiesTo(out: seq<Copy>, to: string): nat {
    if out == [] then 0
    else CopiesTo(out[..|out| - 1], to) + if out[|out| - 1].to == to then 1 else 0
  }

  /** What `send_gossip_to_peers` can put in flight: per target at most three attempts, each
      of which may or may not arrive. */
  ghost predicate Fanout(out: seq<Copy>, env: Envelope, targets: set<string>, path: seq<string>) {
    && (forall k :: 0 <= k < |out| ==> out[k].env == env && out[k].path == path && out[k].to in targets)
    && (forall t :: t in targets ==> CopiesTo(out, t) <= MAX_ATTEMPTS)
  }

  function Without(flight: seq<Copy>, i: nat): seq<Copy>
    requires i < |flight|
  {
    flight[..i] + flight[i + 1..]
  }

  /** The state of the addressee after the delivery of the i-th copy, and the outcome. */
  function Delivery(cfg: MeshConfig, m: Mesh, i: nat): (Node, Outcome)
    requires i < |m.flight| && m.flight[i].to in m.nodes && m.flight[i].to in m.clock && m.flight[i].to in cfg.node
  {
    var c := m.flight[i];
    Receive(cfg.mac, cfg.node[c.to], m.nodes[c.to], c.env, m.clock[c.to])
  }

  ghost predicate Deliverable(cfg: MeshConfig, m: Mesh, i: nat) {
    i < |m.flight| && m.flight[i].to in cfg.node
  }

  ghost predicate Next(cfg: MeshConfig, m: Mesh, ev: Event, m': Mesh)
    requires ValidMesh(cfg, m)
  {
    match ev
    case Originate(u, id, threats, organisms, out) =>
      u in cfg.node
      && var now := m.clock[u];
         var peers := LivePeers(m.nodes[u].peers, now);
         && peers != map[]
         && Fanout(out, NewEnvelope(cfg.mac, cfg.node[u], id, threats, organisms, now),
                   Targets(cfg.node[u], peers, None), [u])
         && m' == Mesh(m.nodes[u := MarkOwn(cfg.node[u], m.nodes[u], id, now)], m.clock, m.flight + out)
    case Deliver(i, out) =>
      Deliverable(cfg, m, i)
      && var c := m.flight[i];
         var (n', outcome) := Delivery(cfg, m, i);
         && (if outcome == Accepted(true)
             then Fanout(out, RelayEnvelope(cfg.mac, cfg.node[c.to], c.env),
                         Targets(cfg.node[c.to], n'.peers, Some(c.env.sender.peerId)), c.path + [c.to])
             else out == [])
         && m' == Mesh(m.nodes[c.to := n'], m.clock, Without(m.flight, i) + out)
    case Lose(i) =>
      i < |m.flight| && m' == m.(flight := Without(m.flight, i))
    case Tick(u, elapsed) =>
      u in cfg.node && m' == m.(clock := m.clock[u := m.clock[u] + elapsed])
    case Restarted(u) =>
      u in cfg.node && m' == m.(nodes := m.nodes[u := Restart(cfg.node[u], m.nodes[u], m.clock[u])])
    case Join(u, peer) =>
      u in cfg.node
      && m' == m.(nodes := m.nodes[u := m.nodes[u].(peers := RegisterPeer(m.nodes[u].peers, peer, m.clock[u]))])
    case Forget(u) =>
      u in cfg.node && m' == m.(nodes := m.nodes[u := m.nodes[u].(seen := map[])])
  }

  /** A run: `states[k]` turns into `states[k + 1]` by `events[k]`. */
  ghost predicate Run(cfg: MeshConfig, states: seq<Mesh>, events: seq<Event>) {
    && |states| == |events| + 1
    && (forall k :: 0 <= k < |states| ==> ValidMesh(cfg, states[k]))
    && (forall k :: 0 <= k < |events| ==> Next(cfg, states[k], events[k], states[k + 1]))
  }

  lemma RunPrefix(cfg: MeshConfig, states: seq<Mesh>, events: seq<Event>)
    requires Run(cfg, states, events) && events != []
    ensures Run(cfg, states[..|events|], events[..|events| - 1])
  {
    var s, e := states[..|events|], events[..|events| - 1];
    forall k | 0 <= k < |e|
      ensures Next(cfg, s[k], e[k], s[k + 1])
    {
      assert s[k] == states[k] && e[k] == events[k] && s[k + 1] == states[k + 1];
    }
  }

  lemma RelayKeepsSender(mac: Mac, cfg: NodeConfig, e: Envelope)
    requires e.ttlHops > 1
    ensures var r := RelayEnvelope(mac, cfg, e);
            r.gossipId == e.gossipId && r.sender == e.sender && r.sentAt == e.sentAt && r.ttlHops == e.ttlHops - 1
  {
  }

  // ----- where copies come from ---------------------------------------------

  /** The copies of a step's result are old copies or the ones the step sent. */
  lemma FlightAfter(cfg: MeshConfig, m: Mesh, ev: Event, m': Mesh, k: nat)
    requires ValidMesh(cfg, m) && Next(cfg, m, ev, m') && k < |m'.flight|
    ensures (exists j :: 0 <= j < |m.flight| && m'.flight[k] == m.flight[j])
            || ((ev.Originate? || ev.Deliver?) && m'.flight[k] in ev.out)
  {
    match ev {
      case Originate(_, _, _, _, out) =>
        if k < |m.flight| {
          assert m'.flight[k] == m.flight[k];
        } else {
          assert m'.flight[k] == out[k - |m.flight|];
        }
      case Deliver(i, out) => WithoutAt(m.flight, i, out, k);
      case Lose(i) =>
        assert Without(m.flight, i) + [] == Without(m.flight, i);
        WithoutAt(m.flight, i, [], k);
      case _ => assert m'.flight[k] == m.flight[k];
    }
  }

  lemma WithoutAt(flight: seq<Copy>, i: nat, out: seq<Copy>, k: nat)
    requires i < |flight| && k < |Without(flight, i) + out|
    ensures (exists j :: 0 <= j < |flight| && (Without(flight, i) + out)[k] == flight[j])
            || (Without(flight, i) + out)[k] in out
  {
    var all := Without(flight, i) + out;
    if k < i {
      assert all[k] == flight[k];
    } else if k < |flight| - 1 {
      assert all[k] == flight[k + 1];
    } else {
      assert all[k] == out[k - (|flight| - 1)];
    }
  }

  // ----- the travel invariant ------------------------------------------------

  /** What every copy that started in a gossip loop carries. */
  ghost predicate Traveled(cfg: MeshConfig, c: Copy) {
    && c.path != []
    && (forall k :: 0 <= k < |c.path| ==> c.path[k] in cfg.node)
    && c.env.sender.peerId == c.path[0]
    && c.env.ttlHops >= 1
    && c.env.ttlHops + |c.path| == cfg.node[c.path[0]].maxHops + 1
    && c.to != c.path[0]
    && c.to != c.path[|c.path| - 1]
  }

  ghost predicate AllTraveled(cfg: MeshConfig, m: Mesh) {
    forall k :: 0 <= k < |m.flight| ==> Traveled(cfg, m.flight[k])
  }

  lemma SentTraveled(cfg: MeshConfig, m: Mesh, ev: Event, m': Mesh, c: Copy)
    requires ValidConfig(cfg) && ValidMesh(cfg, m) && Next(cfg, m, ev, m') && AllTraveled(cfg, m)
    requires (ev.Originate? || ev.Deliver?) && c in ev.out
    ensures Traveled(cfg, c)
  {
    if ev.Deliver? {
      var d := m.flight[ev.i];
      assert Traveled(cfg, d);
      RelayKeepsSender(cfg.mac, cfg.node[d.to], d.env);
      assert c.path == d.path + [d.to];
    }
  }

  lemma StepKeepsTraveled(cfg: MeshConfig, m: Mesh, ev: Event, m': Mesh)
    requires ValidConfig(cfg) && ValidMesh(cfg, m) && Next(cfg, m, ev, m') && AllTraveled(cfg, m)
    ensures AllTraveled(cfg, m')
  {
    forall k | 0 <= k < |m'.flight|
      ensures Traveled(cfg, m'.flight[k])
    {
      FlightAfter(cfg, m, ev, m', k);
      if (ev.Originate? || ev.Deliver?) && m'.flight[k] in ev.out {
        SentTraveled(cfg, m, ev, m', m'.flight[k]);
      }
    }
  }

  lemma {:induction false} RunKeepsTraveled(cfg: MeshConfig, states: seq<Mesh>, events: seq<Event>)
    requires ValidConfig(cfg) && Run(cfg, states, events) && AllTraveled(cfg, states[0])
    ensures AllTraveled(cfg, states[|events|])
  {
    if events != [] {
      RunPrefix(cfg, states, events);
      RunKeepsTraveled(cfg, states[..|events|], events[..|events| - 1]);
      StepKeepsTraveled(cfg, states[|events| - 1], events[|events| - 1], states[|events|]);
    }
  }

  /** In every run from an idle mesh, whatever is lost, restarted or forgotten: a delivery is
      never to the gossip's originator, never meets the TTL drop, and happens after at most
      `max_hops` transmissions; the copies it relays have made one hop more. */
  lemma HopBudget(cfg: MeshConfig, states: seq<Mesh>, events: seq<Event>, i: nat)
    requires ValidConfig(cfg) && Run(cfg, states, events) && states[0].flight == []
    requires var m := states[|events|]; Deliverable(cfg, m, i)
    ensures var m := states[|events|];
            var c := m.flight[i];
            var origin := c.env.sender.peerId;
            && origin in cfg.node && c.to != origin
            && |c.path| + c.env.ttlHops == cfg.node[origin].maxHops + 1
            && 1 <= |c.path| <= cfg.node[origin].maxHops
            && Delivery(cfg, m, i).1 != DroppedTtl
            && (Delivery(cfg, m, i).1 == Accepted(true) <==>
                Delivery(cfg, m, i).1.Accepted? && |c.path| < cfg.node[origin].maxHops)
  {
    RunKeepsTraveled(cfg, states, events);
    assert Traveled(cfg, states[|events|].flight[i]);
  }

  // ----- the signature invariant ---------------------------------------------

  /** Every node signs, and every node that verifies at all lists every signing key. */
  ghost predicate KeysAgree(cfg: MeshConfig) {
    && TagsNonEmpty(cfg.mac)
    && (forall u :: u in cfg.node ==> cfg.node[u].signingKey.Some?)
    && (forall u, v :: u in cfg.node && v in cfg.node && cfg.node[v].verifyKeys != [] ==>
          cfg.node[u].signingKey.value in cfg.node[v].verifyKeys)
  }

  /** The copy carries the tag of its last transmitter for the text it has now. */
  ghost predicate SignedByLast(cfg: MeshConfig, c: Copy) {
    && c.path != []
    && var s := c.path[|c.path| - 1];
       && s in cfg.node && cfg.node[s].signingKey.Some?
       && c.env.hmac == Some(cfg.mac(cfg.node[s].signingKey.value, SigningPayload(c.env)))
  }

  ghost predicate AllSigned(cfg: MeshConfig, m: Mesh) {
    forall k :: 0 <= k < |m.flight| ==> SignedByLast(cfg, m.flight[k])
  }

  lemma SignKeepsPayload(mac: Mac, e: Envelope, key: string)
    ensures SigningPayload(Sign(mac, e, key)) == SigningPayload(e)
  {
  }

  lemma StepKeepsSigned(cfg: MeshConfig, m: Mesh, ev: Event, m': Mesh)
    requires KeysAgree(cfg) && ValidMesh(cfg, m) && Next(cfg, m, ev, m') && AllSigned(cfg, m)
    ensures AllSigned(cfg, m')
  {
    forall k | 0 <= k < |m'.flight|
      ensures SignedByLast(cfg, m'.flight[k])
    {
      FlightAfter(cfg, m, ev, m', k);
      var c := m'.flight[k];
      if (ev.Originate? || ev.Deliver?) && c in ev.out {
        var s := if ev.Originate? then ev.u else m.flight[ev.i].to;
        assert c.path[|c.path| - 1] == s;
        var key := cfg.node[s].signingKey.value;
        if ev.Originate? {
          SignKeepsPayload(cfg.mac, c.env.(hmac := None), key);
        } else {
          var d := m.flight[ev.i];
          SignKeepsPayload(cfg.mac, d.env.(ttlHops := d.env.ttlHops - 1), key);
        }
      }
    }
  }

  lemma {:induction false} RunKeepsSigned(cfg: MeshConfig, states: seq<Mesh>, events: seq<Event>)
    requires KeysAgree(cfg) && Run(cfg, states, events) && AllSigned(cfg, states[0])
    ensures AllSigned(cfg, states[|events|])
  {
    if events != [] {
      RunPrefix(cfg, states, events);
      RunKeepsSigned(cfg, states[..|events|], events[..|events| - 1]);
      StepKeepsSigned(cfg, states[|events| - 1], events[|events| - 1], states[|events|]);
    }
  }

  lemma SignedIsAdmitted(cfg: MeshConfig, c: Copy, v: string)
    requires KeysAgree(cfg) && SignedByLast(cfg, c) && v in cfg.node
    ensures Admits(cfg.mac, cfg.node[v], c.env)
  {
    if cfg.node[v].verifyKeys != [] {
      var key := cfg.node[c.path[|c.path| - 1]].signingKey.value;
      var k :| 0 <= k < |cfg.node[v].verifyKeys| && cfg.node[v].verifyKeys[k] == key;
      assert Verifies(cfg.mac, c.env, cfg.node[v].verifyKeys[k]);
    }
  }

  /** In every run from an idle mesh no delivery is rejected for authentication, at any hop,
      although each relay rewrites the signed TTL. */
  lemma NeverAuthRejected(cfg: MeshConfig, states: seq<Mesh>, events: seq<Event>, i: nat)
    requires KeysAgree(cfg) && Run(cfg, states, events) && states[0].flight == []
    requires Deliverable(cfg, states[|events|], i)
    ensures Delivery(cfg, states[|events|], i).1 != AuthFailed
  {
    RunKeepsSigned(cfg, states, events);
    var c := states[|events|].flight[i];
    assert SignedByLast(cfg, c);
    SignedIsAdmitted(cfg, c, c.to);
  }
}
