/** A line of any number of nodes and any hop budget that does not exceed it: flooding runs exist, and the
    bound on the hop budget cannot be lowered. */
module MeshLine {
  import opened Wrappers
  import opened Gossip
  import opened GossipAuth
  import opened ColonyNode
  import opened Mesh
  import opened MeshFlood

  const TAG: Bytes := [1]
  const MAC: Mac := (key, payload) => TAG
  const ENTRY: MeshPeer := MeshPeer("", "", 0, 0, 1)

  /** The nodes in order, each of which knows the next one, and the hop budget. */
  datatype Line = Line(ids: seq<string>, hops: nat)

  ghost predicate Valid(l: Line) {
    2 <= |l.ids| && Distinct(l.ids) && 1 <= l.hops < 256 && l.hops <= |l.ids| - 1
  }

  function NodeConfigOf(l: Line, id: string): NodeConfig
    requires l.hops < 256
  {
    NodeConfig(id, "", "", 301, l.hops, Some("k"), ["k"])
  }

  ghost function Config(l: Line): MeshConfig
    requires Valid(l)
  {
    MeshConfig(MAC, map u | u in l.ids :: NodeConfigOf(l, u))
  }

  function KnownPeers(l: Line, i: nat): Registry {
    if i + 1 < |l.ids| then map[l.ids[i + 1] := ENTRY] else map[]
  }

  /** The envelope that node i receives. */
  function Arriving(l: Line, i: nat): Envelope
    requires Valid(l) && 1 <= i <= l.hops
  {
    Envelope("g", l.hops - i + 1, PeerRegistration(l.ids[0], "", ""), [], 0, 0, Some(TAG))
  }

  /** Node i after k events: one origination and then a delivery to each node in turn. */
  function NodeAt(l: Line, i: nat, k: nat): Node
    requires Valid(l) && i < |l.ids| && k <= l.hops + 1
  {
    if i == 0 then Node(KnownPeers(l, 0), if k >= 1 then map["g" := 0] else map[], [])
    else if i < k then Node(KnownPeers(l, i)[l.ids[0] := ENTRY], map["g" := 0], [RecordOf(Arriving(l, i), 0)])
    else Node(KnownPeers(l, i), map[], [])
  }

  function Flight(l: Line, k: nat): seq<Copy>
    requires Valid(l)
  {
    if 1 <= k <= l.hops then [Copy(Arriving(l, k), l.ids[k], l.ids[..k])] else []
  }

  /** Where a node stands in the line. */
  ghost function Index(l: Line, u: string): (i: nat)
    requires u in l.ids
    ensures i < |l.ids| && l.ids[i] == u
  {
    var i :| 0 <= i < |l.ids| && l.ids[i] == u;
    i
  }

  ghost function State(l: Line, k: nat): Mesh
    requires Valid(l) && k <= l.hops + 1
  {
    Mesh(map u | u in l.ids :: NodeAt(l, Index(l, u), k), map u | u in l.ids :: 0, Flight(l, k))
  }

  function EventAt(l: Line, k: nat): Event
    requires Valid(l) && k <= l.hops
  {
    if k == 0 then Originate(l.ids[0], "g", [], 0, Flight(l, 1)) else Deliver(0, Flight(l, k + 1))
  }

  ghost function States(l: Line): (s: seq<Mesh>)
    requires Valid(l)
    ensures |s| == l.hops + 2
  {
    seq(l.hops + 2, k requires 0 <= k < l.hops + 2 => State(l, k))
  }

  function Events(l: Line): (e: seq<Event>)
    requires Valid(l)
    ensures |e| == l.hops + 1
  {
    seq(l.hops + 1, k requires 0 <= k < l.hops + 1 => EventAt(l, k))
  }

  function Hop(l: Line, i: nat): (string, string)
    requires i + 1 < |l.ids|
  {
    (l.ids[i], l.ids[i + 1])
  }

  ghost function Edges(l: Line): MeshFlood.Edges {
    set i | 0 <= i < |l.ids| - 1 :: Hop(l, i)
  }

  // ----- configuration and states --------------------------------------------

  lemma {:induction false} CountIds(ids: seq<string>)
    requires Distinct(ids)
    ensures |set u | u in ids| == |ids|
  {
    var s := set u | u in ids;
    if ids == [] {
      assert s == {};
    } else {
      var init, last := ids[..|ids| - 1], ids[|ids| - 1];
      CountIds(init);
      assert s == (set u | u in init) + {last};
      assert last !in init;
    }
  }

  lemma ConfigIsValid(l: Line)
    requires Valid(l)
    ensures ValidConfig(Config(l)) && KeysAgree(Config(l))
    ensures l.ids[0] in Config(l).node
    ensures HopsSuffice(Config(l), l.ids[0]) <==> l.hops == |l.ids| - 1
  {
    CountIds(l.ids);
    assert Config(l).node.Keys == set u | u in l.ids;
    assert |Config(l).node| == |Config(l).node.Keys|;
  }

  lemma StateIsValid(l: Line, k: nat)
    requires Valid(l) && k <= l.hops + 1
    ensures ValidMesh(Config(l), State(l, k))
  {
    assert State(l, k).nodes.Keys == State(l, k).clock.Keys == Config(l).node.Keys == set u | u in l.ids;
  }

  lemma IndexIs(l: Line, i: nat)
    requires Valid(l) && i < |l.ids|
    ensures l.ids[i] in l.ids && Index(l, l.ids[i]) == i
  {
    var j := Index(l, l.ids[i]);
    assert l.ids[j] == l.ids[i];
  }

  lemma AtNode(l: Line, k: nat, i: nat)
    requires Valid(l) && k <= l.hops + 1 && i < |l.ids|
    ensures var m := State(l, k);
            && l.ids[i] in m.nodes && l.ids[i] in m.clock && l.ids[i] in Config(l).node
            && m.nodes[l.ids[i]] == NodeAt(l, i, k) && m.clock[l.ids[i]] == 0
            && Config(l).node[l.ids[i]] == NodeConfigOf(l, l.ids[i])
    ensures Config(l).mac == MAC && State(l, k).flight == Flight(l, k)
  {
    IndexIs(l, i);
  }

  /** Event k changes the k-th node and nobody else. */
  lemma NextState(l: Line, k: nat, n': Node)
    requires Valid(l) && k <= l.hops && n' == NodeAt(l, k, k + 1)
    ensures State(l, k + 1)
            == Mesh(State(l, k).nodes[l.ids[k] := n'], State(l, k).clock, Flight(l, k + 1))
  {
    IndexIs(l, k);
    var a, b := State(l, k + 1).nodes, State(l, k).nodes[l.ids[k] := n'];
    assert a.Keys == b.Keys;
    forall u | u in a
      ensures a[u] == b[u]
    {
      assert u != l.ids[k] ==> Index(l, u) != k;
    }
  }

  // ----- what happens at a node ----------------------------------------------

  lemma AllLive(peers: Registry)
    requires forall p :: p in peers ==> peers[p] == ENTRY
    ensures LivePeers(peers, 0) == peers
  {
  }

  lemma NothingToRetain()
    ensures Retain(map[], 0, 301) == map[]
  {
  }

  lemma OriginatorMarks(l: Line)
    requires Valid(l)
    ensures MarkOwn(NodeConfigOf(l, l.ids[0]), NodeAt(l, 0, 0), "g", 0) == NodeAt(l, 0, 1)
    ensures NewEnvelope(MAC, NodeConfigOf(l, l.ids[0]), "g", [], 0, 0) == Arriving(l, 1)
  {
    AllLive(KnownPeers(l, 0));
    NothingToRetain();
  }

  lemma ArrivingIsAdmitted(l: Line, k: nat)
    requires Valid(l) && 1 <= k <= l.hops
    ensures Admits(MAC, NodeConfigOf(l, l.ids[k]), Arriving(l, k))
  {
    assert Verifies(MAC, Arriving(l, k), NodeConfigOf(l, l.ids[k]).verifyKeys[0]);
  }

  lemma SenderRegistered(l: Line, k: nat)
    requires Valid(l) && 1 <= k <= l.hops
    ensures RegisterPeer(KnownPeers(l, k), Arriving(l, k).sender, 0) == KnownPeers(l, k)[l.ids[0] := ENTRY]
  {
    AllLive(KnownPeers(l, k));
  }

  lemma ReceiverStores(l: Line, k: nat)
    requires Valid(l) && 1 <= k <= l.hops
    ensures Receive(MAC, NodeConfigOf(l, l.ids[k]), NodeAt(l, k, k), Arriving(l, k), 0)
            == (NodeAt(l, k, k + 1), Accepted(k < l.hops))
  {
    ArrivingIsAdmitted(l, k);
    SenderRegistered(l, k);
    NothingToRetain();
    assert MarkSeen(map[], "g", Timestamp(0), 301) == (map["g" := 0], true);
    assert Arriving(l, k).ttlHops > 1 <==> k < l.hops;
    hide Admits, RegisterPeer, LivePeers, MarkSeen, KnownPeers;
    assert !Stale(Arriving(l, k), 0);
    assert [] + [RecordOf(Arriving(l, k), 0)] == [RecordOf(Arriving(l, k), 0)];
  }

  /** A send of the gossip to the next node in line. */
  lemma SentOn(l: Line, k: nat)
    requires Valid(l) && 1 <= k <= l.hops
    ensures Fanout(Flight(l, k), Arriving(l, k), {l.ids[k]}, l.ids[..k]) && ReachesAll(Flight(l, k), {l.ids[k]})
  {
    var out := Flight(l, k);
    assert out[0].to == l.ids[k];
    assert out[..0] == [];
  }

  lemma FirstTargets(l: Line)
    requires Valid(l)
    ensures LivePeers(KnownPeers(l, 0), 0) == KnownPeers(l, 0) && l.ids[1] in KnownPeers(l, 0)
    ensures Targets(NodeConfigOf(l, l.ids[0]), KnownPeers(l, 0), None) == {l.ids[1]}
  {
    AllLive(KnownPeers(l, 0));
  }

  lemma RelayTargets(l: Line, k: nat)
    requires Valid(l) && 1 <= k < l.hops
    ensures Targets(NodeConfigOf(l, l.ids[k]), NodeAt(l, k, k + 1).peers, Some(l.ids[0])) == {l.ids[k + 1]}
    ensures RelayEnvelope(MAC, NodeConfigOf(l, l.ids[k]), Arriving(l, k)) == Arriving(l, k + 1)
    ensures l.ids[..k] + [l.ids[k]] == l.ids[..k + 1]
  {
  }

  // ----- the steps -----------------------------------------------------------

  lemma Originated(cfg: MeshConfig, m: Mesh, u: string, c: NodeConfig, n: Node, peers: Registry, v: string,
                   env: Envelope, n': Node, out: seq<Copy>, m': Mesh)
    requires ValidMesh(cfg, m) && u in cfg.node && u in m.nodes && u in m.clock
    requires cfg.node[u] == c && m.nodes[u] == n && m.clock[u] == 0
    requires LivePeers(n.peers, 0) == peers != map[] && Targets(c, peers, None) == {v}
    requires env == NewEnvelope(cfg.mac, c, "g", [], 0, 0) && Fanout(out, env, {v}, [u])
    requires n' == MarkOwn(c, n, "g", 0) && m' == Mesh(m.nodes[u := n'], m.clock, out) && m.flight == []
    ensures Next(cfg, m, Originate(u, "g", [], 0, out), m')
  {
    hide LivePeers, Targets, Fanout, MarkOwn, NewEnvelope;
    assert m.flight + out == out;
  }

  /** The only copy in flight is delivered and, if accepted with hops to spare, sent on. */
  lemma DeliveredOnly(cfg: MeshConfig, m: Mesh, c: Copy, nc: NodeConfig, n: Node, n': Node, relayed: bool,
                      out: seq<Copy>, m': Mesh)
    requires ValidMesh(cfg, m) && m.flight == [c] && c.to in cfg.node && c.to in m.nodes && c.to in m.clock
    requires cfg.node[c.to] == nc && m.nodes[c.to] == n && m.clock[c.to] == 0
    requires Receive(cfg.mac, nc, n, c.env, 0) == (n', Accepted(relayed))
    requires if relayed then SentBy(cfg, nc, n', c, out) else out == []
    requires m' == Mesh(m.nodes[c.to := n'], m.clock, out)
    ensures Next(cfg, m, Deliver(0, out), m') && Calm(cfg, m, Deliver(0, out), "g")
  {
    hide Receive, Fanout, Targets, ReachesAll, RelayEnvelope;
    assert m.flight[0] == c;
    assert Without(m.flight, 0) + out == out;
  }

  /** A complete relay of a copy. */
  ghost predicate SentBy(cfg: MeshConfig, nc: NodeConfig, n: Node, c: Copy, out: seq<Copy>) {
    && c.env.ttlHops > 1
    && var targets := Targets(nc, n.peers, Some(c.env.sender.peerId));
       Fanout(out, RelayEnvelope(cfg.mac, nc, c.env), targets, c.path + [c.to]) && ReachesAll(out, targets)
  }

  lemma FirstFacts(l: Line)
    requires Valid(l)
    ensures NodeAt(l, 0, 0).peers == KnownPeers(l, 0) != map[] && l.ids[..1] == [l.ids[0]]
    ensures EventAt(l, 0) == Originate(l.ids[0], "g", [], 0, Flight(l, 1))
    ensures Flight(l, 0) == [] && Flight(l, l.hops + 1) == []
  {
    assert l.ids[1] in KnownPeers(l, 0);
  }

  lemma FirstStep(l: Line)
    requires Valid(l)
    ensures ValidMesh(Config(l), State(l, 0)) && Next(Config(l), State(l, 0), EventAt(l, 0), State(l, 1))
  {
    hide Next, Fanout, Targets, LivePeers, MarkOwn, NewEnvelope, State, Config, NodeConfigOf, NodeAt, KnownPeers,
         Arriving, Flight, ValidMesh, EventAt, ReachesAll;
    FirstFacts(l);
    StateIsValid(l, 0);
    AtNode(l, 0, 0);
    OriginatorMarks(l);
    FirstTargets(l);
    SentOn(l, 1);
    NextState(l, 0, NodeAt(l, 0, 1));
    Originated(Config(l), State(l, 0), l.ids[0], NodeConfigOf(l, l.ids[0]), NodeAt(l, 0, 0), KnownPeers(l, 0), l.ids[1],
               Arriving(l, 1), NodeAt(l, 0, 1), Flight(l, 1), State(l, 1));
  }

  function CopyTo(l: Line, k: nat): Copy
    requires Valid(l) && 1 <= k <= l.hops
  {
    Copy(Arriving(l, k), l.ids[k], l.ids[..k])
  }

  lemma RelayIsSent(l: Line, k: nat)
    requires Valid(l) && 1 <= k <= l.hops
    ensures Flight(l, k) == [CopyTo(l, k)]
    ensures if k < l.hops
            then SentBy(Config(l), NodeConfigOf(l, l.ids[k]), NodeAt(l, k, k + 1), CopyTo(l, k), Flight(l, k + 1))
            else Flight(l, k + 1) == []
  {
    if k < l.hops {
      RelayTargets(l, k);
      SentOn(l, k + 1);
      assert Arriving(l, k).ttlHops > 1 && Arriving(l, k).sender.peerId == l.ids[0] && Config(l).mac == MAC;
      hide Fanout, ReachesAll, Targets, RelayEnvelope, Config, NodeConfigOf, NodeAt;
    }
  }

  lemma LaterStep(l: Line, k: nat)
    requires Valid(l) && 1 <= k <= l.hops
    ensures ValidMesh(Config(l), State(l, k)) && Next(Config(l), State(l, k), EventAt(l, k), State(l, k + 1))
    ensures Calm(Config(l), State(l, k), EventAt(l, k), "g")
  {
    StateIsValid(l, k);
    AtNode(l, k, k);
    ReceiverStores(l, k);
    RelayIsSent(l, k);
    NextState(l, k, NodeAt(l, k, k + 1));
    assert CopyTo(l, k).to == l.ids[k] && CopyTo(l, k).env == Arriving(l, k);
    hide Next, Calm, SentBy, Receive, State, Config, NodeConfigOf, NodeAt, CopyTo, Arriving, Flight, ValidMesh;
    DeliveredOnly(Config(l), State(l, k), CopyTo(l, k), NodeConfigOf(l, l.ids[k]), NodeAt(l, k, k), NodeAt(l, k, k + 1),
                  k < l.hops, Flight(l, k + 1), State(l, k + 1));
  }

  // ----- the run -------------------------------------------------------------

  lemma NodeIsQuiet(l: Line, i: nat, k: nat)
    requires Valid(l) && i < |l.ids| && k <= l.hops + 1
    ensures NothingExpires(NodeConfigOf(l, l.ids[i]), NodeAt(l, i, k), 0)
    ensures i + 1 < |l.ids| ==> l.ids[i + 1] in LivePeers(NodeAt(l, i, k).peers, 0)
  {
  }

  lemma StateIsSteady(l: Line, k: nat)
    requires Valid(l) && k <= l.hops
    ensures ValidMesh(Config(l), State(l, k)) && Steady(Config(l), State(l, k), "g", Edges(l))
  {
    hide NothingExpires, LivePeers, Stale, State, Config, NodeAt, Flight, ValidMesh, NodeConfigOf, KnownPeers, Arriving;
    StateIsValid(l, k);
    var cfg, m := Config(l), State(l, k);
    AtNode(l, k, 0);
    FlightIsFresh(l, k);
    OnlyIds(l);
    forall u | u in cfg.node
      ensures m.clock[u] == 0 && NothingExpires(cfg.node[u], m.nodes[u], m.clock[u])
    {
      AtNode(l, k, Index(l, u));
      NodeIsQuiet(l, Index(l, u), k);
    }
    forall e | e in Edges(l)
      ensures e.0 in cfg.node && e.1 in cfg.node && e.1 in LivePeers(m.nodes[e.0].peers, m.clock[e.0])
    {
      var i :| 0 <= i < |l.ids| - 1 && e == Hop(l, i);
      AtNode(l, k, i);
      AtNode(l, k, i + 1);
      NodeIsQuiet(l, i, k);
    }
  }

  lemma OnlyIds(l: Line)
    requires Valid(l)
    ensures forall u :: u in Config(l).node ==> u in l.ids
  {
  }

  lemma FlightIsFresh(l: Line, k: nat)
    requires Valid(l)
    ensures forall j :: 0 <= j < |Flight(l, k)| ==> !Stale(Flight(l, k)[j].env, 0)
  {
  }

  lemma StartIsUnknown(l: Line)
    requires Valid(l)
    ensures AllTraveled(Config(l), State(l, 0)) && AllSigned(Config(l), State(l, 0)) && Unknown(State(l, 0), "g")
  {
  }

  lemma RunAt(l: Line, k: nat)
    requires Valid(l) && k <= l.hops + 1
    ensures States(l)[k] == State(l, k)
    ensures k <= l.hops ==> Events(l)[k] == EventAt(l, k)
  {
  }

  lemma StepAt(l: Line, k: nat)
    requires Valid(l) && k <= l.hops
    ensures ValidMesh(Config(l), States(l)[k]) && Next(Config(l), States(l)[k], Events(l)[k], States(l)[k + 1])
  {
    hide Next, State, Config, EventAt, ValidMesh, States, Events;
    RunAt(l, k);
    RunAt(l, k + 1);
    if k == 0 {
      FirstStep(l);
    } else {
      LaterStep(l, k);
    }
  }

  lemma LineIsRun(l: Line)
    requires Valid(l)
    ensures Run(Config(l), States(l), Events(l))
  {
    hide Next, State, Config, EventAt, ValidMesh, States, Events, Valid;
    forall k | 0 <= k < l.hops + 2
      ensures ValidMesh(Config(l), States(l)[k])
    {
      RunAt(l, k);
      StateIsValid(l, k);
    }
    forall k | 0 <= k < l.hops + 1
      ensures Next(Config(l), States(l)[k], Events(l)[k], States(l)[k + 1])
    {
      StepAt(l, k);
    }
  }

  lemma FirstReaches(l: Line)
    requires Valid(l)
    ensures l.ids[0] in Config(l).node && l.ids[0] in State(l, 0).nodes && l.ids[0] in State(l, 0).clock
    ensures ReachesAll(Flight(l, 1), Targets(Config(l).node[l.ids[0]],
                       LivePeers(State(l, 0).nodes[l.ids[0]].peers, State(l, 0).clock[l.ids[0]]), None))
  {
    AtNode(l, 0, 0);
    FirstTargets(l);
    SentOn(l, 1);
    hide ReachesAll, Targets, LivePeers, State, Config;
  }

  lemma CalmAt(l: Line, k: nat)
    requires Valid(l) && k <= l.hops
    ensures ValidMesh(Config(l), States(l)[k]) && Steady(Config(l), States(l)[k], "g", Edges(l))
    ensures k >= 1 ==> Calm(Config(l), States(l)[k], Events(l)[k], "g")
  {
    hide Steady, Calm, State, Config, EventAt, ValidMesh, States, Events, Edges;
    RunAt(l, k);
    StateIsSteady(l, k);
    if k >= 1 {
      LaterStep(l, k);
    }
  }

  /** A calm run, put together from its parts. */
  lemma Assembled(cfg: MeshConfig, s: seq<Mesh>, e: seq<Event>, edges: MeshFlood.Edges, o: string, out: seq<Copy>)
    requires ValidConfig(cfg) && KeysAgree(cfg) && Run(cfg, s, e) && o in cfg.node
    requires e != [] && e[0] == Originate(o, "g", [], 0, out) && ValidMesh(cfg, s[0])
    requires AllTraveled(cfg, s[0]) && AllSigned(cfg, s[0]) && Unknown(s[0], "g")
    requires ReachesAll(out, Targets(cfg.node[o], LivePeers(s[0].nodes[o].peers, s[0].clock[o]), None))
    requires forall k :: 0 <= k < |e| ==>
               && ValidMesh(cfg, s[k]) && Steady(cfg, s[k], "g", edges)
               && (k >= 1 ==> Calm(cfg, s[k], e[k], "g"))
    ensures CalmRun(cfg, s, e, edges)
  {
    hide Run, Steady, Calm, AllTraveled, AllSigned, Unknown, ReachesAll, Targets, LivePeers, ValidConfig, KeysAgree;
  }

  lemma LineIsCalm(l: Line)
    requires Valid(l)
    ensures CalmRun(Config(l), States(l), Events(l), Edges(l))
  {
    ConfigIsValid(l);
    LineIsRun(l);
    StartIsUnknown(l);
    FirstReaches(l);
    RunAt(l, 0);
    FirstFacts(l);
    hide Run, State, Config, Steady, Calm, ValidMesh, AllTraveled, AllSigned, Unknown, ReachesAll, Targets, LivePeers,
         ValidConfig, KeysAgree, EventAt, Edges, States, Events, Valid, Flight, HopsSuffice, CalmRun;
    forall k | 0 <= k < l.hops + 1
      ensures ValidMesh(Config(l), States(l)[k]) && Steady(Config(l), States(l)[k], "g", Edges(l))
      ensures k >= 1 ==> Calm(Config(l), States(l)[k], Events(l)[k], "g")
    {
      CalmAt(l, k);
    }
    Assembled(Config(l), States(l), Events(l), Edges(l), l.ids[0], Flight(l, 1));
  }

  lemma NobodyWaits(m: Mesh)
    requires m.flight == []
    ensures forall v :: !InFlight(m, "g", v)
  {
  }

  /** Node i is reachable, and has stored the gossip if it is within the budget. */
  ghost predicate EndsWith(l: Line, m: Mesh, i: nat)
    requires i < |l.ids|
  {
    && Walk(Edges(l), l.ids[..i + 1]) && l.ids[i] in m.nodes
    && Stored(m.nodes[l.ids[i]].log, "g") == if i <= l.hops then 1 else 0
  }

  lemma AtTheEnd(l: Line, i: nat)
    requires Valid(l) && 1 <= i < |l.ids|
    ensures States(l)[l.hops + 1].flight == [] && l.ids[i] in States(l)[l.hops + 1].nodes
    ensures Stored(States(l)[l.hops + 1].nodes[l.ids[i]].log, "g") == if i <= l.hops then 1 else 0
  {
    hide State, States, Config, NodeAt, Stored, Flight, NodeConfigOf, KnownPeers;
    RunAt(l, l.hops + 1);
    AtNode(l, l.hops + 1, i);
    FirstFacts(l);
    StoredHere(l, i);
  }

  /** For every number of nodes in line and every budget up to one hop per further node: everything about a
      flooding run holds but, unless the budget is that largest one, the bound on it; at quiescence the gossip is
      stored by exactly the nodes within the budget, although the others are reachable too. */
  lemma HopBoundIsTight(l: Line)
    requires Valid(l)
    ensures CalmRun(Config(l), States(l), Events(l), Edges(l))
    ensures l.ids[0] in Config(l).node && (HopsSuffice(Config(l), l.ids[0]) <==> l.hops == |l.ids| - 1)
    ensures var m := States(l)[l.hops + 1];
            && (forall v :: !InFlight(m, "g", v))
            && forall i :: 1 <= i < |l.ids| ==> EndsWith(l, m, i)
  {
    hide CalmRun, Config, HopsSuffice, State, States, Events, Edges, Walk, Stored, InFlight;
    LineIsCalm(l);
    ConfigIsValid(l);
    var m := States(l)[l.hops + 1];
    AtTheEnd(l, 1);
    NobodyWaits(m);
    forall i | 1 <= i < |l.ids|
      ensures EndsWith(l, m, i)
    {
      LineIsWalk(l, i);
      AtTheEnd(l, i);
    }
  }

  lemma LineIsWalk(l: Line, i: nat)
    requires Valid(l) && i < |l.ids|
    ensures Walk(Edges(l), l.ids[..i + 1])
  {
    var w := l.ids[..i + 1];
    forall j | 0 <= j < |w| - 1
      ensures (w[j], w[j + 1]) in Edges(l)
    {
      assert (w[j], w[j + 1]) == Hop(l, j);
    }
  }

  lemma StoredHere(l: Line, i: nat)
    requires Valid(l) && 1 <= i < |l.ids|
    ensures Stored(NodeAt(l, i, l.hops + 1).log, "g") == if i <= l.hops then 1 else 0
  {
    if i <= l.hops {
      StoredSnoc([], RecordOf(Arriving(l, i), 0), "g");
      assert [] + [RecordOf(Arriving(l, i), 0)] == [RecordOf(Arriving(l, i), 0)];
    }
  }
}
