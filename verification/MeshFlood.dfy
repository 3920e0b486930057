/** Who is reached: once no copy of a gossip is left in flight, every node that can be
    reached from its originator has stored it exactly once. The first acceptance may come
    over a long detour; the TTL still suffices because that detour never visits a node twice. */
module MeshFlood {
  import opened Wrappers
  import opened Gossip
  import opened GossipAuth
  import opened ColonyNode
  import opened Mesh

  type Edges = set<(string, string)>

  // ----- assumptions on a run ------------------------------------------------

  /** No cache eviction, lasting peer entries and no stale copy, in one state. */
  ghost predicate Steady(cfg: MeshConfig, m: Mesh, g: string, edges: Edges)
    requires ValidMesh(cfg, m)
  {
    && (forall u :: u in cfg.node ==> NothingExpires(cfg.node[u], m.nodes[u], m.clock[u]))
    && (forall e :: e in edges ==> e.0 in cfg.node && e.1 in cfg.node
                                   && e.1 in LivePeers(m.nodes[e.0].peers, m.clock[e.0]))
    && (forall k :: 0 <= k < |m.flight| && m.flight[k].env.gossipId == g && m.flight[k].to in cfg.node
                    ==> !Stale(m.flight[k].env, m.clock[m.flight[k].to]))
  }

  ghost predicate NothingExpires(cfg: NodeConfig, n: Node, now: Instant) {
    |n.seen| < CACHE_LIMIT && forall id :: id in n.seen ==> Timestamp(now) - n.seen[id] <= cfg.dedupWindow
  }

  ghost predicate ReachesAll(out: seq<Copy>, targets: set<string>) {
    forall t :: t in targets ==> exists k :: 0 <= k < |out| && out[k].to == t
  }

  /** The events of a run without loss, restart or cleared caches, in which the id stays unique. */
  ghost predicate Calm(cfg: MeshConfig, m: Mesh, ev: Event, g: string)
    requires ValidMesh(cfg, m)
  {
    match ev
    case Originate(u, id, _, _, _) => id != g
    case Deliver(i, out) =>
      Deliverable(cfg, m, i) ==>
        (Delivery(cfg, m, i).1 == Accepted(true) ==>
           var c := m.flight[i];
           ReachesAll(out, Targets(cfg.node[c.to], Delivery(cfg, m, i).0.peers, Some(c.env.sender.peerId))))
    case Tick(_, _) => true
    case Join(_, _) => true
    case _ => false
  }

  // ----- the invariant -------------------------------------------------------

  ghost function Holders(m: Mesh, g: string, o: string): set<string> {
    set u | u in m.nodes && (u == o || Stored(m.nodes[u].log, g) > 0)
  }

  ghost predicate InFlight(m: Mesh, g: string, v: string) {
    exists k :: 0 <= k < |m.flight| && m.flight[k].env.gossipId == g && m.flight[k].to == v
  }

  ghost predicate NodesKnow(m: Mesh, g: string, o: string) {
    forall u :: u in m.nodes ==>
      && (g in m.nodes[u].seen <==> u in Holders(m, g, o))
      && Stored(m.nodes[u].log, g) <= (if u == o then 0 else 1)
  }

  ghost predicate Distinct(p: seq<string>) {
    forall i, j :: 0 <= i < j < |p| ==> p[i] != p[j]
  }

  ghost predicate SimplePath(c: Copy, held: set<string>, o: string) {
    c.path != [] && c.path[0] == o && Distinct(c.path) && forall k :: 0 <= k < |c.path| ==> c.path[k] in held
  }

  ghost predicate PathsHeld(m: Mesh, g: string, o: string) {
    forall k :: 0 <= k < |m.flight| && m.flight[k].env.gossipId == g
                ==> SimplePath(m.flight[k], Holders(m, g, o), o)
  }

  /** Either everybody holds the gossip, or every edge out of the holders leads to a holder, to
      the originator, or to a node that a copy is on its way to. */
  ghost predicate Covered(m: Mesh, g: string, o: string, edges: Edges) {
    || Holders(m, g, o) == m.nodes.Keys
    || forall e :: e in edges && e.0 in Holders(m, g, o) ==> Settled(m, g, o, e.0, e.1)
  }

  ghost predicate Settled(m: Mesh, g: string, o: string, u: string, v: string) {
    v == u || v == o || v in Holders(m, g, o) || InFlight(m, g, v)
  }

  ghost predicate FloodInv(cfg: MeshConfig, m: Mesh, g: string, o: string, edges: Edges) {
    && ValidMesh(cfg, m) && o in cfg.node
    && AllTraveled(cfg, m) && AllSigned(cfg, m)
    && NodesKnow(m, g, o) && PathsHeld(m, g, o) && Covered(m, g, o, edges)
  }

  // ----- one delivery --------------------------------------------------------

  lemma NothingRetained(cfg: NodeConfig, n: Node, now: Instant)
    requires NothingExpires(cfg, n, now)
    ensures Retain(n.seen, Timestamp(now), cfg.dedupWindow) == n.seen
  {
  }

  /** A gossip with another id leaves everything about g at a node as it was. */
  lemma OtherGossip(mac: Mac, cfg: NodeConfig, n: Node, e: Envelope, now: Instant, g: string)
    requires NothingExpires(cfg, n, now) && e.gossipId != g
    ensures var n' := Receive(mac, cfg, n, e, now).0;
            (g in n'.seen <==> g in n.seen) && Stored(n'.log, g) == Stored(n.log, g)
  {
    NothingRetained(cfg, n, now);
    MarkKeepsLive(n.seen, e.gossipId, Timestamp(now), cfg.dedupWindow);
    StoredSnoc(n.log, RecordOf(e, now), g);
  }

  /** A copy of g is stored exactly when the node did not know g. */
  lemma ThisGossip(mac: Mac, cfg: NodeConfig, n: Node, e: Envelope, now: Instant)
    requires NothingExpires(cfg, n, now)
    requires !Stale(e, now) && Admits(mac, cfg, e) && e.ttlHops >= 1
    ensures var (n', outcome) := Receive(mac, cfg, n, e, now);
            && e.gossipId in n'.seen
            && (if e.gossipId in n.seen
                then outcome == Duplicate && n'.log == n.log
                else outcome == Accepted(e.ttlHops > 1)
                     && Stored(n'.log, e.gossipId) == Stored(n.log, e.gossipId) + 1
                     && (forall p :: p in LivePeers(n.peers, now) ==> p in n'.peers))
  {
    NothingRetained(cfg, n, now);
    MarkKeepsLive(n.seen, e.gossipId, Timestamp(now), cfg.dedupWindow);
    StoredSnoc(n.log, RecordOf(e, now), e.gossipId);
  }

  /** A copy other than the delivered one is still in flight. */
  lemma StillInFlight(m: Mesh, m': Mesh, i: nat, out: seq<Copy>, g: string, v: string)
    requires i < |m.flight| && m'.flight == Without(m.flight, i) + out
    requires InFlight(m, g, v) && (m.flight[i].env.gossipId == g ==> m.flight[i].to != v)
    ensures InFlight(m', g, v)
  {
    var k :| 0 <= k < |m.flight| && m.flight[k].env.gossipId == g && m.flight[k].to == v;
    var k' := if k < i then k else k - 1;
    assert m'.flight[k'] == m.flight[k];
  }

  lemma SentInFlight(m: Mesh, kept: seq<Copy>, out: seq<Copy>, g: string, k: nat)
    requires m.flight == kept + out && k < |out| && out[k].env.gossipId == g
    ensures InFlight(m, g, out[k].to)
  {
    assert m.flight[|kept| + k] == out[k];
  }

  lemma {:induction false} DistinctSize(p: seq<string>, s: set<string>)
    requires Distinct(p) && forall k :: 0 <= k < |p| ==> p[k] in s
    ensures |p| <= |s|
  {
    if p != [] {
      var last := p[|p| - 1];
      DistinctSize(p[..|p| - 1], s - {last});
    }
  }

  lemma AllOf(held: set<string>, all: set<string>)
    requires held <= all && |all| <= |held|
    ensures held == all
  {
    if held != all {
      var x :| x in all && x !in held;
      SubsetSize(held, all - {x});
    }
  }

  /** Replacing one node's state without touching what it knows of g. */
  lemma NodeReplaced(m: Mesh, m': Mesh, u: string, n': Node, g: string, o: string)
    requires u in m.nodes && m'.nodes == m.nodes[u := n']
    requires (g in n'.seen <==> g in m.nodes[u].seen) && Stored(n'.log, g) == Stored(m.nodes[u].log, g)
    ensures Holders(m', g, o) == Holders(m, g, o)
    ensures NodesKnow(m, g, o) ==> NodesKnow(m', g, o)
  {
    assert m'.nodes.Keys == m.nodes.Keys;
    assert forall v :: v in m.nodes && v != u ==> m'.nodes[v] == m.nodes[v];
    assert Holders(m', g, o) == Holders(m, g, o);
  }

  ghost predicate OldCopies(m: Mesh, m': Mesh, g: string) {
    forall k :: 0 <= k < |m'.flight| && m'.flight[k].env.gossipId == g ==> m'.flight[k] in m.flight
  }

  lemma PathsKept(m: Mesh, m': Mesh, g: string, o: string)
    requires Holders(m', g, o) == Holders(m, g, o) && PathsHeld(m, g, o) && OldCopies(m, m', g)
    ensures PathsHeld(m', g, o)
  {
    forall k | 0 <= k < |m'.flight| && m'.flight[k].env.gossipId == g
      ensures SimplePath(m'.flight[k], Holders(m', g, o), o)
    {
      var j :| 0 <= j < |m.flight| && m.flight[j] == m'.flight[k];
      assert SimplePath(m.flight[j], Holders(m, g, o), o);
    }
  }

  lemma CoveredKept(m: Mesh, m': Mesh, g: string, o: string, edges: Edges)
    requires m'.nodes.Keys == m.nodes.Keys && Holders(m', g, o) == Holders(m, g, o) && Covered(m, g, o, edges)
    requires forall v :: InFlight(m, g, v) && v !in Holders(m, g, o) ==> InFlight(m', g, v)
    ensures Covered(m', g, o, edges)
  {
    if Holders(m, g, o) != m.nodes.Keys {
      forall e | e in edges && e.0 in Holders(m', g, o)
        ensures Settled(m', g, o, e.0, e.1)
      {
        assert Settled(m, g, o, e.0, e.1);
      }
    }
  }

  /** A copy leaves the flight and copies of another gossip, or none, are added. */
  lemma FlightStep(m: Mesh, m': Mesh, i: nat, out: seq<Copy>, g: string)
    requires i < |m.flight| && m'.flight == Without(m.flight, i) + out
    requires forall k :: 0 <= k < |out| ==> out[k].env.gossipId != g
    ensures OldCopies(m, m', g)
    ensures forall v :: InFlight(m, g, v) && (m.flight[i].env.gossipId == g ==> m.flight[i].to != v)
                        ==> InFlight(m', g, v)
  {
    forall k | 0 <= k < |m'.flight| && m'.flight[k].env.gossipId == g
      ensures m'.flight[k] in m.flight
    {
      WithoutAt(m.flight, i, out, k);
    }
    forall v | InFlight(m, g, v) && (m.flight[i].env.gossipId == g ==> m.flight[i].to != v)
      ensures InFlight(m', g, v)
    {
      StillInFlight(m, m', i, out, g, v);
    }
  }

  lemma DeliverOther(cfg: MeshConfig, m: Mesh, i: nat, out: seq<Copy>, m': Mesh, g: string, o: string, edges: Edges)
    requires ValidMesh(cfg, m) && NodesKnow(m, g, o) && PathsHeld(m, g, o) && Covered(m, g, o, edges)
    requires Deliverable(cfg, m, i) && m.flight[i].env.gossipId != g
    requires var u := m.flight[i].to; NothingExpires(cfg.node[u], m.nodes[u], m.clock[u])
    requires m'.nodes == m.nodes[m.flight[i].to := Delivery(cfg, m, i).0]
    requires m'.flight == Without(m.flight, i) + out
    requires forall k :: 0 <= k < |out| ==> out[k].env.gossipId != g
    ensures NodesKnow(m', g, o) && PathsHeld(m', g, o) && Covered(m', g, o, edges)
  {
    var c := m.flight[i];
    OtherGossip(cfg.mac, cfg.node[c.to], m.nodes[c.to], c.env, m.clock[c.to], g);
    NodeReplaced(m, m', c.to, Delivery(cfg, m, i).0, g, o);
    FlightStep(m, m', i, out, g);
    PathsKept(m, m', g, o);
    CoveredKept(m, m', g, o, edges);
  }

  /** A copy of g is admitted wherever it arrives. */
  lemma CopyAdmitted(cfg: MeshConfig, m: Mesh, i: nat, g: string, o: string, edges: Edges)
    requires KeysAgree(cfg) && FloodInv(cfg, m, g, o, edges) && Steady(cfg, m, g, edges)
    requires Deliverable(cfg, m, i) && m.flight[i].env.gossipId == g
    ensures var c := m.flight[i];
            Admits(cfg.mac, cfg.node[c.to], c.env) && c.env.ttlHops >= 1 && !Stale(c.env, m.clock[c.to])
  {
    var c := m.flight[i];
    assert Traveled(cfg, c) && SignedByLast(cfg, c);
    SignedIsAdmitted(cfg, c, c.to);
  }

  lemma DeliverDuplicate(cfg: MeshConfig, m: Mesh, i: nat, m': Mesh, g: string, o: string, edges: Edges)
    requires KeysAgree(cfg) && FloodInv(cfg, m, g, o, edges) && Steady(cfg, m, g, edges)
    requires Deliverable(cfg, m, i) && m.flight[i].env.gossipId == g && m.flight[i].to in Holders(m, g, o)
    requires m'.nodes == m.nodes[m.flight[i].to := Delivery(cfg, m, i).0]
    requires m'.flight == Without(m.flight, i) + []
    ensures NodesKnow(m', g, o) && PathsHeld(m', g, o) && Covered(m', g, o, edges)
  {
    var c := m.flight[i];
    CopyAdmitted(cfg, m, i, g, o, edges);
    ThisGossip(cfg.mac, cfg.node[c.to], m.nodes[c.to], c.env, m.clock[c.to]);
    hide Receive, AllTraveled, AllSigned, PathsHeld, Covered, Admits, Stored;
    NodeReplaced(m, m', c.to, Delivery(cfg, m, i).0, g, o);
    FlightStep(m, m', i, [], g);
    PathsKept(m, m', g, o);
    CoveredKept(m, m', g, o, edges);
  }

  /** What the acceptance of g at a new node changes. */
  lemma AcceptEffect(cfg: MeshConfig, m: Mesh, i: nat, m': Mesh, g: string, o: string)
    requires ValidMesh(cfg, m) && NodesKnow(m, g, o)
    requires Deliverable(cfg, m, i) && m.flight[i].env.gossipId == g && m.flight[i].to !in Holders(m, g, o)
    requires var c := m.flight[i];
             && NothingExpires(cfg.node[c.to], m.nodes[c.to], m.clock[c.to])
             && Admits(cfg.mac, cfg.node[c.to], c.env) && c.env.ttlHops >= 1 && !Stale(c.env, m.clock[c.to])
    requires m'.nodes == m.nodes[m.flight[i].to := Delivery(cfg, m, i).0]
    ensures var c := m.flight[i];
            && Holders(m', g, o) == Holders(m, g, o) + {c.to}
            && NodesKnow(m', g, o)
            && Delivery(cfg, m, i).1 == Accepted(c.env.ttlHops > 1)
            && (forall p :: p in LivePeers(m.nodes[c.to].peers, m.clock[c.to]) ==> p in Delivery(cfg, m, i).0.peers)
  {
    var c := m.flight[i];
    ThisGossip(cfg.mac, cfg.node[c.to], m.nodes[c.to], c.env, m.clock[c.to]);
    HolderAdded(m, m', c.to, Delivery(cfg, m, i).0, g, o);
  }

  lemma HolderAdded(m: Mesh, m': Mesh, u: string, n': Node, g: string, o: string)
    requires u in m.nodes && u != o && m'.nodes == m.nodes[u := n']
    requires g in n'.seen && Stored(n'.log, g) == 1
    ensures Holders(m', g, o) == Holders(m, g, o) + {u}
    ensures NodesKnow(m, g, o) ==> NodesKnow(m', g, o)
  {
    assert forall v :: v in m.nodes && v != u ==> m'.nodes[v] == m.nodes[v];
    assert Holders(m', g, o) == Holders(m, g, o) + {u};
  }

  lemma AcceptPaths(m: Mesh, i: nat, out: seq<Copy>, m': Mesh, g: string, o: string)
    requires PathsHeld(m, g, o)
    requires i < |m.flight| && m.flight[i].env.gossipId == g && m.flight[i].to !in Holders(m, g, o)
    requires Holders(m', g, o) == Holders(m, g, o) + {m.flight[i].to}
    requires m'.flight == Without(m.flight, i) + out
    requires forall k :: 0 <= k < |out| ==> out[k].path == m.flight[i].path + [m.flight[i].to]
    ensures PathsHeld(m', g, o)
  {
    var c := m.flight[i];
    assert SimplePath(c, Holders(m, g, o), o);
    forall k | 0 <= k < |m'.flight| && m'.flight[k].env.gossipId == g
      ensures SimplePath(m'.flight[k], Holders(m', g, o), o)
    {
      WithoutAt(m.flight, i, out, k);
      if m'.flight[k] !in out {
        assert SimplePath(m'.flight[k], Holders(m, g, o), o);
      }
    }
  }

  /** A gossip accepted with its last hop has already visited every node. */
  lemma LastHopMeansAll(cfg: MeshConfig, m: Mesh, i: nat, g: string, o: string, held: set<string>)
    requires ValidMesh(cfg, m) && o in cfg.node && |cfg.node| - 1 <= cfg.node[o].maxHops
    requires i < |m.flight| && Traveled(cfg, m.flight[i]) && m.flight[i].env.ttlHops == 1
    requires SimplePath(m.flight[i], Holders(m, g, o), o)
    requires m.flight[i].to !in Holders(m, g, o) && held == Holders(m, g, o) + {m.flight[i].to} && held <= cfg.node.Keys
    ensures held == cfg.node.Keys
  {
    var c := m.flight[i];
    DistinctSize(c.path, Holders(m, g, o));
    assert |held| == |Holders(m, g, o)| + 1;
    assert |cfg.node| == |cfg.node.Keys|;
    AllOf(held, cfg.node.Keys);
  }

  lemma AcceptCovers(m: Mesh, i: nat, out: seq<Copy>, m': Mesh, g: string, o: string, edges: Edges)
    requires Covered(m, g, o, edges)
    requires i < |m.flight| && m.flight[i].env.gossipId == g && m.flight[i].to !in Holders(m, g, o)
    requires m.flight[i].to in m.nodes && m'.nodes.Keys == m.nodes.Keys
    requires Holders(m', g, o) == Holders(m, g, o) + {m.flight[i].to}
    requires m'.flight == Without(m.flight, i) + out
    requires || Holders(m', g, o) == m.nodes.Keys
             || forall v :: (m.flight[i].to, v) in edges ==> Settled(m', g, o, m.flight[i].to, v)
    ensures Covered(m', g, o, edges)
  {
    var c := m.flight[i];
    if Holders(m', g, o) != m.nodes.Keys {
      forall e | e in edges && e.0 in Holders(m', g, o)
        ensures Settled(m', g, o, e.0, e.1)
      {
        if e.0 == c.to {
          assert e == (c.to, e.1);
        } else {
          assert Settled(m, g, o, e.0, e.1);
          if e.1 != e.0 && e.1 != o && e.1 !in Holders(m', g, o) {
            StillInFlight(m, m', i, out, g, e.1);
          }
        }
      }
    }
  }

  /** A relaying node has sent a copy along each of its edges. */
  lemma RelayReaches(cfg: MeshConfig, m: Mesh, i: nat, out: seq<Copy>, m': Mesh, g: string, o: string, v: string)
    requires ValidConfig(cfg) && ValidMesh(cfg, m) && Deliverable(cfg, m, i)
    requires m.flight[i].env.gossipId == g && m.flight[i].env.sender.peerId == o && m.flight[i].env.ttlHops > 1
    requires m'.flight == Without(m.flight, i) + out
    requires var c := m.flight[i];
             && (forall k :: 0 <= k < |out| ==> out[k].env == RelayEnvelope(cfg.mac, cfg.node[c.to], c.env))
             && ReachesAll(out, Targets(cfg.node[c.to], Delivery(cfg, m, i).0.peers, Some(c.env.sender.peerId)))
    requires v in Delivery(cfg, m, i).0.peers
    ensures Settled(m', g, o, m.flight[i].to, v)
  {
    var c := m.flight[i];
    if v != c.to && v != o {
      assert v in Targets(cfg.node[c.to], Delivery(cfg, m, i).0.peers, Some(c.env.sender.peerId));
      var k :| 0 <= k < |out| && out[k].to == v;
      RelayKeepsSender(cfg.mac, cfg.node[c.to], c.env);
      SentInFlight(m', Without(m.flight, i), out, g, k);
    }
  }

  /** After an acceptance either everybody holds g or the new holder's edges are settled. */
  lemma AcceptSettles(cfg: MeshConfig, m: Mesh, ev: Event, m': Mesh, g: string, o: string, edges: Edges)
    requires ValidConfig(cfg) && ValidMesh(cfg, m) && o in cfg.node && Steady(cfg, m, g, edges)
    requires |cfg.node| - 1 <= cfg.node[o].maxHops
    requires ev.Deliver? && Next(cfg, m, ev, m') && Calm(cfg, m, ev, g)
    requires var c := m.flight[ev.i];
             && c.env.gossipId == g && c.to !in Holders(m, g, o)
             && Traveled(cfg, c) && SimplePath(c, Holders(m, g, o), o)
             && Holders(m', g, o) == Holders(m, g, o) + {c.to}
             && Delivery(cfg, m, ev.i).1 == Accepted(c.env.ttlHops > 1)
             && (forall p :: p in LivePeers(m.nodes[c.to].peers, m.clock[c.to]) ==> p in Delivery(cfg, m, ev.i).0.peers)
    ensures || Holders(m', g, o) == m.nodes.Keys
            || forall v :: (m.flight[ev.i].to, v) in edges ==> Settled(m', g, o, m.flight[ev.i].to, v)
  {
    var c := m.flight[ev.i];
    if c.env.ttlHops == 1 {
      LastHopMeansAll(cfg, m, ev.i, g, o, Holders(m', g, o));
    } else {
      forall v | (c.to, v) in edges
        ensures Settled(m', g, o, c.to, v)
      {
        assert (c.to, v).1 in LivePeers(m.nodes[c.to].peers, m.clock[c.to]);
        RelayReaches(cfg, m, ev.i, ev.out, m', g, o, v);
      }
    }
  }

  lemma SentPaths(cfg: MeshConfig, m: Mesh, ev: Event, m': Mesh)
    requires ValidMesh(cfg, m) && ev.Deliver? && Next(cfg, m, ev, m')
    ensures forall k :: 0 <= k < |ev.out| ==> ev.out[k].path == m.flight[ev.i].path + [m.flight[ev.i].to]
  {
  }

  lemma AcceptFacts(cfg: MeshConfig, m: Mesh, ev: Event, m': Mesh, g: string, o: string, edges: Edges)
    requires ValidConfig(cfg) && KeysAgree(cfg)
    requires FloodInv(cfg, m, g, o, edges) && Steady(cfg, m, g, edges)
    requires |cfg.node| - 1 <= cfg.node[o].maxHops
    requires ev.Deliver? && Next(cfg, m, ev, m') && Calm(cfg, m, ev, g)
    requires m.flight[ev.i].env.gossipId == g && m.flight[ev.i].to !in Holders(m, g, o)
    ensures NodesKnow(m', g, o) && Holders(m', g, o) == Holders(m, g, o) + {m.flight[ev.i].to}
    ensures || Holders(m', g, o) == m.nodes.Keys
            || forall v :: (m.flight[ev.i].to, v) in edges ==> Settled(m', g, o, m.flight[ev.i].to, v)
  {
    CopyAdmitted(cfg, m, ev.i, g, o, edges);
    var c := m.flight[ev.i];
    assert SimplePath(c, Holders(m, g, o), o) && Traveled(cfg, c);
    AcceptEffect(cfg, m, ev.i, m', g, o);
    AcceptSettles(cfg, m, ev, m', g, o, edges);
  }

  lemma NewHolderPaths(cfg: MeshConfig, m: Mesh, ev: Event, m': Mesh, g: string, o: string, edges: Edges)
    requires ValidMesh(cfg, m) && PathsHeld(m, g, o) && Covered(m, g, o, edges)
    requires ev.Deliver? && Next(cfg, m, ev, m')
    requires m.flight[ev.i].env.gossipId == g && m.flight[ev.i].to !in Holders(m, g, o)
    requires Holders(m', g, o) == Holders(m, g, o) + {m.flight[ev.i].to}
    ensures PathsHeld(m', g, o)
  {
    SentPaths(cfg, m, ev, m');
    AcceptPaths(m, ev.i, ev.out, m', g, o);
  }

  lemma NewHolderCovers(cfg: MeshConfig, m: Mesh, ev: Event, m': Mesh, g: string, o: string, edges: Edges)
    requires ValidMesh(cfg, m) && PathsHeld(m, g, o) && Covered(m, g, o, edges)
    requires ev.Deliver? && Next(cfg, m, ev, m')
    requires m.flight[ev.i].env.gossipId == g && m.flight[ev.i].to !in Holders(m, g, o)
    requires Holders(m', g, o) == Holders(m, g, o) + {m.flight[ev.i].to}
    requires || Holders(m', g, o) == m.nodes.Keys
            || forall v :: (m.flight[ev.i].to, v) in edges ==> Settled(m', g, o, m.flight[ev.i].to, v)
    ensures Covered(m', g, o, edges)
  {
    assert m'.nodes.Keys == m.nodes.Keys;
    AcceptCovers(m, ev.i, ev.out, m', g, o, edges);
  }

  lemma DeliverNew(cfg: MeshConfig, m: Mesh, ev: Event, m': Mesh, g: string, o: string, edges: Edges)
    requires ValidConfig(cfg) && KeysAgree(cfg)
    requires FloodInv(cfg, m, g, o, edges) && Steady(cfg, m, g, edges)
    requires |cfg.node| - 1 <= cfg.node[o].maxHops
    requires ev.Deliver? && Next(cfg, m, ev, m') && Calm(cfg, m, ev, g)
    requires m.flight[ev.i].env.gossipId == g && m.flight[ev.i].to !in Holders(m, g, o)
    ensures NodesKnow(m', g, o) && PathsHeld(m', g, o) && Covered(m', g, o, edges)
  {
    AcceptFacts(cfg, m, ev, m', g, o, edges);
    NewHolderPaths(cfg, m, ev, m', g, o, edges);
    NewHolderCovers(cfg, m, ev, m', g, o, edges);
  }

  // ----- the other steps -----------------------------------------------------

  lemma OriginateOther(cfg: NodeConfig, m: Mesh, u: string, id: string, now: Instant, out: seq<Copy>, m': Mesh,
                       g: string, o: string, edges: Edges)
    requires NodesKnow(m, g, o) && PathsHeld(m, g, o) && Covered(m, g, o, edges)
    requires id != g && u in m.nodes && NothingExpires(cfg, m.nodes[u], now)
    requires m'.nodes == m.nodes[u := MarkOwn(cfg, m.nodes[u], id, now)] && m'.flight == m.flight + out
    requires forall k :: 0 <= k < |out| ==> out[k].env.gossipId != g
    ensures NodesKnow(m', g, o) && PathsHeld(m', g, o) && Covered(m', g, o, edges)
  {
    NothingRetained(cfg, m.nodes[u], now);
    MarkKeepsLive(m.nodes[u].seen, id, Timestamp(now), cfg.dedupWindow);
    NodeReplaced(m, m', u, MarkOwn(cfg, m.nodes[u], id, now), g, o);
    forall v | InFlight(m, g, v)
      ensures InFlight(m', g, v)
    {
      var k :| 0 <= k < |m.flight| && m.flight[k].env.gossipId == g && m.flight[k].to == v;
      assert m'.flight[k] == m.flight[k];
    }
    PathsKept(m, m', g, o);
    CoveredKept(m, m', g, o, edges);
  }

  lemma DeliverOtherKeeps(cfg: MeshConfig, m: Mesh, ev: Event, m': Mesh, g: string, o: string, edges: Edges)
    requires ValidMesh(cfg, m) && NodesKnow(m, g, o) && PathsHeld(m, g, o) && Covered(m, g, o, edges)
    requires forall u :: u in cfg.node ==> NothingExpires(cfg.node[u], m.nodes[u], m.clock[u])
    requires ev.Deliver? && Next(cfg, m, ev, m') && m.flight[ev.i].env.gossipId != g
    ensures NodesKnow(m', g, o) && PathsHeld(m', g, o) && Covered(m', g, o, edges)
  {
    DeliverOther(cfg, m, ev.i, ev.out, m', g, o, edges);
  }

  lemma DeliverDuplicateKeeps(cfg: MeshConfig, m: Mesh, ev: Event, m': Mesh, g: string, o: string, edges: Edges)
    requires KeysAgree(cfg) && FloodInv(cfg, m, g, o, edges) && Steady(cfg, m, g, edges)
    requires ev.Deliver? && Next(cfg, m, ev, m')
    requires m.flight[ev.i].env.gossipId == g && m.flight[ev.i].to in Holders(m, g, o)
    ensures NodesKnow(m', g, o) && PathsHeld(m', g, o) && Covered(m', g, o, edges)
  {
    var c := m.flight[ev.i];
    CopyAdmitted(cfg, m, ev.i, g, o, edges);
    ThisGossip(cfg.mac, cfg.node[c.to], m.nodes[c.to], c.env, m.clock[c.to]);
    DeliverDuplicate(cfg, m, ev.i, m', g, o, edges);
  }

  lemma DeliverKeeps(cfg: MeshConfig, m: Mesh, ev: Event, m': Mesh, g: string, o: string, edges: Edges)
    requires ValidConfig(cfg) && KeysAgree(cfg)
    requires FloodInv(cfg, m, g, o, edges) && Steady(cfg, m, g, edges)
    requires |cfg.node| - 1 <= cfg.node[o].maxHops
    requires ev.Deliver? && Next(cfg, m, ev, m') && Calm(cfg, m, ev, g)
    ensures NodesKnow(m', g, o) && PathsHeld(m', g, o) && Covered(m', g, o, edges)
  {
    var c := m.flight[ev.i];
    if c.env.gossipId != g {
      DeliverOtherKeeps(cfg, m, ev, m', g, o, edges);
    } else if c.to in Holders(m, g, o) {
      DeliverDuplicateKeeps(cfg, m, ev, m', g, o, edges);
    } else {
      DeliverNew(cfg, m, ev, m', g, o, edges);
    }
  }

  lemma OtherStepKeeps(cfg: MeshConfig, m: Mesh, ev: Event, m': Mesh, g: string, o: string, edges: Edges)
    requires FloodInv(cfg, m, g, o, edges) && Steady(cfg, m, g, edges)
    requires !ev.Deliver? && Next(cfg, m, ev, m') && Calm(cfg, m, ev, g)
    ensures NodesKnow(m', g, o) && PathsHeld(m', g, o) && Covered(m', g, o, edges)
  {
    if ev.Originate? {
      OriginateKeeps(cfg, m, ev, m', g, o, edges);
    } else {
      QuietKeeps(cfg, m, ev, m', g, o, edges);
    }
  }

  lemma QuietKeeps(cfg: MeshConfig, m: Mesh, ev: Event, m': Mesh, g: string, o: string, edges: Edges)
    requires ValidMesh(cfg, m) && NodesKnow(m, g, o) && PathsHeld(m, g, o) && Covered(m, g, o, edges)
    requires (ev.Tick? || ev.Join?) && Next(cfg, m, ev, m')
    ensures NodesKnow(m', g, o) && PathsHeld(m', g, o) && Covered(m', g, o, edges)
  {
    hide RegisterPeer, NodesKnow, PathsHeld, Covered;
    assert m'.nodes.Keys == m.nodes.Keys;
    QuietStep(m, m', g, o, edges);
  }

  lemma OriginateKeeps(cfg: MeshConfig, m: Mesh, ev: Event, m': Mesh, g: string, o: string, edges: Edges)
    requires ValidMesh(cfg, m) && NodesKnow(m, g, o) && PathsHeld(m, g, o) && Covered(m, g, o, edges)
    requires forall u :: u in cfg.node ==> NothingExpires(cfg.node[u], m.nodes[u], m.clock[u])
    requires ev.Originate? && Next(cfg, m, ev, m') && ev.id != g
    ensures NodesKnow(m', g, o) && PathsHeld(m', g, o) && Covered(m', g, o, edges)
  {
    OriginateOther(cfg.node[ev.u], m, ev.u, ev.id, m.clock[ev.u], ev.out, m', g, o, edges);
  }

  lemma StepKeepsFlood(cfg: MeshConfig, m: Mesh, ev: Event, m': Mesh, g: string, o: string, edges: Edges)
    requires ValidConfig(cfg) && KeysAgree(cfg) && ValidMesh(cfg, m')
    requires FloodInv(cfg, m, g, o, edges) && Steady(cfg, m, g, edges)
    requires |cfg.node| - 1 <= cfg.node[o].maxHops
    requires Next(cfg, m, ev, m') && Calm(cfg, m, ev, g)
    ensures FloodInv(cfg, m', g, o, edges)
  {
    StepKeepsTraveled(cfg, m, ev, m');
    StepKeepsSigned(cfg, m, ev, m');
    if ev.Deliver? {
      DeliverKeeps(cfg, m, ev, m', g, o, edges);
    } else {
      OtherStepKeeps(cfg, m, ev, m', g, o, edges);
    }
  }

  /** Steps that touch neither caches, logs nor flight. */
  lemma QuietStep(m: Mesh, m': Mesh, g: string, o: string, edges: Edges)
    requires m'.flight == m.flight && m'.nodes.Keys == m.nodes.Keys
    requires forall u :: u in m.nodes ==> m'.nodes[u].seen == m.nodes[u].seen && m'.nodes[u].log == m.nodes[u].log
    requires NodesKnow(m, g, o) && PathsHeld(m, g, o) && Covered(m, g, o, edges)
    ensures NodesKnow(m', g, o) && PathsHeld(m', g, o) && Covered(m', g, o, edges)
  {
    assert Holders(m', g, o) == Holders(m, g, o);
    forall v | InFlight(m, g, v)
      ensures InFlight(m', g, v)
    {
    }
    CoveredKept(m, m', g, o, edges);
  }

  // ----- the start -----------------------------------------------------------

  /** Before it is originated nobody has heard of g. */
  ghost predicate Unknown(m: Mesh, g: string) {
    && (forall u :: u in m.nodes ==> g !in m.nodes[u].seen && Stored(m.nodes[u].log, g) == 0)
    && (forall k :: 0 <= k < |m.flight| ==> m.flight[k].env.gossipId != g)
  }

  lemma OriginateStarts(cfg: MeshConfig, m: Mesh, ev: Event, m': Mesh, edges: Edges)
    requires ValidConfig(cfg) && KeysAgree(cfg) && ValidMesh(cfg, m) && ValidMesh(cfg, m')
    requires AllTraveled(cfg, m) && AllSigned(cfg, m)
    requires ev.Originate? && Next(cfg, m, ev, m') && Unknown(m, ev.id) && Steady(cfg, m, ev.id, edges)
    requires ReachesAll(ev.out, Targets(cfg.node[ev.u], LivePeers(m.nodes[ev.u].peers, m.clock[ev.u]), None))
    ensures FloodInv(cfg, m', ev.id, ev.u, edges)
  {
    StepKeepsTraveled(cfg, m, ev, m');
    StepKeepsSigned(cfg, m, ev, m');
    OriginateKnows(cfg.node[ev.u], m, ev.u, ev.id, m.clock[ev.u], m');
    OriginateCovers(cfg, m, ev, m', edges);
  }

  lemma OriginateKnows(cfg: NodeConfig, m: Mesh, o: string, g: string, now: Instant, m': Mesh)
    requires Unknown(m, g) && o in m.nodes && m'.nodes == m.nodes[o := MarkOwn(cfg, m.nodes[o], g, now)]
    requires NothingExpires(cfg, m.nodes[o], now)
    ensures Holders(m', g, o) == {o} && NodesKnow(m', g, o)
  {
    NothingRetained(cfg, m.nodes[o], now);
    MarkKeepsLive(m.nodes[o].seen, g, Timestamp(now), cfg.dedupWindow);
    assert forall v :: v in m.nodes && v != o ==> m'.nodes[v] == m.nodes[v];
    assert Holders(m', g, o) == {o};
  }

  lemma OriginateCovers(cfg: MeshConfig, m: Mesh, ev: Event, m': Mesh, edges: Edges)
    requires ValidConfig(cfg) && ValidMesh(cfg, m)
    requires ev.Originate? && Next(cfg, m, ev, m') && Unknown(m, ev.id) && Steady(cfg, m, ev.id, edges)
    requires ReachesAll(ev.out, Targets(cfg.node[ev.u], LivePeers(m.nodes[ev.u].peers, m.clock[ev.u]), None))
    requires Holders(m', ev.id, ev.u) == {ev.u}
    ensures PathsHeld(m', ev.id, ev.u) && Covered(m', ev.id, ev.u, edges)
  {
    var o, g := ev.u, ev.id;
    forall k | 0 <= k < |m'.flight| && m'.flight[k].env.gossipId == g
      ensures SimplePath(m'.flight[k], Holders(m', g, o), o)
    {
      FlightAfter(cfg, m, ev, m', k);
      assert m'.flight[k].path == [o];
    }
    forall e | e in edges && e.0 in Holders(m', g, o)
      ensures Settled(m', g, o, e.0, e.1)
    {
      if e.1 != o {
        assert e.1 in Targets(cfg.node[o], LivePeers(m.nodes[o].peers, m.clock[o]), None);
        var k :| 0 <= k < |ev.out| && ev.out[k].to == e.1;
        SentInFlight(m', m.flight, ev.out, g, k);
      }
    }
  }

  // ----- whole runs ----------------------------------------------------------

  /** A run that begins with a fully sent gossip g and goes on calmly. */
  ghost predicate CalmRun(cfg: MeshConfig, states: seq<Mesh>, events: seq<Event>, edges: Edges) {
    && ValidConfig(cfg) && KeysAgree(cfg) && Run(cfg, states, events)
    && events != [] && events[0].Originate?
    && var g, o := events[0].id, events[0].u;
       && o in cfg.node
       && AllTraveled(cfg, states[0]) && AllSigned(cfg, states[0]) && Unknown(states[0], g)
       && ReachesAll(events[0].out,
                     Targets(cfg.node[o], LivePeers(states[0].nodes[o].peers, states[0].clock[o]), None))
       && (forall k :: 0 <= k < |events| ==> Steady(cfg, states[k], g, edges))
       && (forall k :: 1 <= k < |events| ==> Calm(cfg, states[k], events[k], g))
  }

  /** The hop budget lets a gossip visit every node. */
  ghost predicate HopsSuffice(cfg: MeshConfig, o: string)
    requires o in cfg.node
  {
    |cfg.node| - 1 <= cfg.node[o].maxHops
  }

  ghost predicate FloodRun(cfg: MeshConfig, states: seq<Mesh>, events: seq<Event>, edges: Edges) {
    CalmRun(cfg, states, events, edges) && HopsSuffice(cfg, events[0].u)
  }

  lemma FloodRunPrefix(cfg: MeshConfig, states: seq<Mesh>, events: seq<Event>, edges: Edges)
    requires FloodRun(cfg, states, events, edges) && |events| > 1
    ensures FloodRun(cfg, states[..|events|], events[..|events| - 1], edges)
  {
    RunPrefix(cfg, states, events);
    var s, e := states[..|events|], events[..|events| - 1];
    assert s[0] == states[0] && e[0] == events[0];
    forall k | 0 <= k < |e|
      ensures Steady(cfg, s[k], e[0].id, edges) && (k > 0 ==> Calm(cfg, s[k], e[k], e[0].id))
    {
      assert e[k] == events[k] && s[k] == states[k];
    }
  }

  lemma FloodRunStart(cfg: MeshConfig, states: seq<Mesh>, events: seq<Event>, edges: Edges)
    requires FloodRun(cfg, states, events, edges)
    ensures FloodInv(cfg, states[1], events[0].id, events[0].u, edges)
  {
    assert Next(cfg, states[0], events[0], states[1]);
    assert Steady(cfg, states[0], events[0].id, edges);
    OriginateStarts(cfg, states[0], events[0], states[1], edges);
  }

  lemma FloodRunShape(cfg: MeshConfig, states: seq<Mesh>, events: seq<Event>, edges: Edges)
    requires FloodRun(cfg, states, events, edges)
    ensures |states| == |events| + 1 && events != [] && events[0].Originate?
  {
  }

  lemma {:induction false} RunKeepsFlood(cfg: MeshConfig, states: seq<Mesh>, events: seq<Event>, edges: Edges)
    requires FloodRun(cfg, states, events, edges)
    ensures FloodInv(cfg, states[|events|], events[0].id, events[0].u, edges)
  {
    FloodRunShape(cfg, states, events, edges);
    hide FloodRun, FloodInv;
    var last := |events| - 1;
    if last == 0 {
      FloodRunStart(cfg, states, events, edges);
    } else {
      FloodRunPrefix(cfg, states, events, edges);
      RunKeepsFlood(cfg, states[..|events|], events[..last], edges);
      LastStep(cfg, states, events, edges);
    }
  }

  lemma LastStep(cfg: MeshConfig, states: seq<Mesh>, events: seq<Event>, edges: Edges)
    requires FloodRun(cfg, states, events, edges) && |events| > 1
    requires FloodInv(cfg, states[|events| - 1], events[0].id, events[0].u, edges)
    ensures FloodInv(cfg, states[|events|], events[0].id, events[0].u, edges)
  {
    var last := |events| - 1;
    var m, ev, m' := states[last], events[last], states[last + 1];
    assert Next(cfg, m, ev, m') && Steady(cfg, m, events[0].id, edges) && Calm(cfg, m, ev, events[0].id);
    StepKeepsFlood(cfg, m, ev, m', events[0].id, events[0].u, edges);
  }

  ghost predicate Walk(edges: Edges, w: seq<string>) {
    w != [] && forall i :: 0 <= i < |w| - 1 ==> (w[i], w[i + 1]) in edges
  }

  lemma {:induction false} WalkIsHeld(m: Mesh, g: string, o: string, edges: Edges, w: seq<string>)
    requires Covered(m, g, o, edges) && (forall e :: e in edges ==> e.1 in m.nodes) && o in m.nodes
    requires forall v :: v in m.nodes ==> !InFlight(m, g, v)
    requires Walk(edges, w) && w[0] == o
    ensures w[|w| - 1] in Holders(m, g, o)
  {
    if |w| > 1 {
      var prev := w[..|w| - 1];
      assert forall i :: 0 <= i < |prev| ==> prev[i] == w[i];
      WalkIsHeld(m, g, o, edges, prev);
      var e := (w[|w| - 2], w[|w| - 1]);
      assert e in edges;
      if Holders(m, g, o) != m.nodes.Keys {
        assert Settled(m, g, o, e.0, e.1);
      }
    }
  }

  /** Flooding is complete and duplicate-free: when no copy of the gossip is left, every node
      reachable from the originator along lasting peer entries has stored it exactly once, and
      the originator itself never has. */
  lemma FloodReaches(cfg: MeshConfig, states: seq<Mesh>, events: seq<Event>, edges: Edges, w: seq<string>)
    requires FloodRun(cfg, states, events, edges)
    requires forall v :: v in states[|events|].nodes ==> !InFlight(states[|events|], events[0].id, v)
    requires Walk(edges, w) && w[0] == events[0].u
    ensures var v := w[|w| - 1];
            && v in states[|events|].nodes
            && Stored(states[|events|].nodes[v].log, events[0].id) == if v == events[0].u then 0 else 1
  {
    RunKeepsFlood(cfg, states, events, edges);
    var m, g, o := states[|events|], events[0].id, events[0].u;
    forall e | e in edges
      ensures e.1 in m.nodes
    {
      assert Steady(cfg, states[0], g, edges);
    }
    WalkIsHeld(m, g, o, edges, w);
  }
}
