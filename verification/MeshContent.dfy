/** What is stored is what was said: no relay, retry, restart or replay alters the content of a gossip. */
module MeshContent {
  import opened Wrappers
  import opened Gossip
  import opened GossipAuth
  import opened ColonyNode
  import opened Mesh

  /** The part of a gossip that its originator decides. */
  datatype Message = Message(gossipId: string, sender: PeerRegistration, threats: seq<string>, organisms: nat,
                             sentAt: Instant)

  function ContentOf(e: Envelope): Message {
    Message(e.gossipId, e.sender, e.observedThreats, e.observedOrganisms, e.sentAt)
  }

  function RecordContent(r: GossipRecord): Message {
    Message(r.gossipId, r.sender, r.observedThreats, r.observedOrganisms, r.sentAt)
  }

  /** Event ev in state m originates the message: with the node's own identity and clock. */
  ghost predicate Says(cfg: MeshConfig, m: Mesh, ev: Event, c: Message) {
    && ev.Originate? && ev.u in cfg.node && ev.u in m.clock
    && c.gossipId == ev.id && c.threats == ev.threats && c.organisms == ev.organisms
    && c.sender.peerId == ev.u
    && c.sender.address == cfg.node[ev.u].address && c.sender.role == cfg.node[ev.u].role
    && c.sentAt == m.clock[ev.u]
  }

  /** Some event of the run so far originated the message. */
  ghost predicate Said(cfg: MeshConfig, states: seq<Mesh>, events: seq<Event>, c: Message)
    requires |states| == |events| + 1
  {
    exists k :: 0 <= k < |events| && Says(cfg, states[k], events[k], c)
  }

  lemma SaidBefore(cfg: MeshConfig, states: seq<Mesh>, events: seq<Event>, c: Message)
    requires |states| == |events| + 1 && events != []
    requires Said(cfg, states[..|events|], events[..|events| - 1], c)
    ensures Said(cfg, states, events, c)
  {
    var k :| 0 <= k < |events| - 1 && Says(cfg, states[..|events|][k], events[..|events| - 1][k], c);
    assert Says(cfg, states[k], events[k], c);
  }

  /** Everything in flight or stored was said. */
  ghost predicate AllSaid(cfg: MeshConfig, states: seq<Mesh>, events: seq<Event>)
    requires |states| == |events| + 1
  {
    var m := states[|events|];
    && (forall k :: 0 <= k < |m.flight| ==> Said(cfg, states, events, ContentOf(m.flight[k].env)))
    && (forall u, k :: u in m.nodes && 0 <= k < |m.nodes[u].log| ==>
          Said(cfg, states, events, RecordContent(m.nodes[u].log[k])))
  }

  /** A step puts in flight only what it says or has received. */
  lemma SentContent(cfg: MeshConfig, m: Mesh, ev: Event, m': Mesh, c: Copy)
    requires ValidConfig(cfg) && ValidMesh(cfg, m) && Next(cfg, m, ev, m')
    requires (ev.Originate? || ev.Deliver?) && c in ev.out
    ensures if ev.Originate? then Says(cfg, m, ev, ContentOf(c.env))
            else ev.i < |m.flight| && ContentOf(c.env) == ContentOf(m.flight[ev.i].env)
  {
  }

  /** And stores only what it has received. */
  lemma StoredContent(cfg: MeshConfig, m: Mesh, ev: Event, m': Mesh, u: string, k: nat)
    requires ValidMesh(cfg, m) && ValidMesh(cfg, m') && Next(cfg, m, ev, m')
    requires u in m'.nodes && k < |m'.nodes[u].log|
    ensures u in m.nodes
    ensures if k < |m.nodes[u].log| then m'.nodes[u].log[k] == m.nodes[u].log[k]
            else ev.Deliver? && ev.i < |m.flight|
                 && RecordContent(m'.nodes[u].log[k]) == ContentOf(m.flight[ev.i].env)
  {
  }

  lemma {:induction false} RunIsSaid(cfg: MeshConfig, states: seq<Mesh>, events: seq<Event>)
    requires ValidConfig(cfg) && Run(cfg, states, events)
    requires states[0].flight == [] && forall u :: u in states[0].nodes ==> states[0].nodes[u].log == []
    ensures AllSaid(cfg, states, events)
  {
    if events != [] {
      RunPrefix(cfg, states, events);
      RunIsSaid(cfg, states[..|events|], events[..|events| - 1]);
      LastIsSaid(cfg, states, events);
    }
  }

  lemma LastIsSaid(cfg: MeshConfig, states: seq<Mesh>, events: seq<Event>)
    requires ValidConfig(cfg) && Run(cfg, states, events) && events != []
    requires AllSaid(cfg, states[..|events|], events[..|events| - 1])
    ensures AllSaid(cfg, states, events)
  {
    var last := |events| - 1;
    var m, ev, m' := states[last], events[last], states[last + 1];
    assert ValidMesh(cfg, m) && ValidMesh(cfg, m') && Next(cfg, m, ev, m');
    assert states[..|events|][last] == m;
    hide Next, ValidMesh, Run;
    forall k | 0 <= k < |m'.flight|
      ensures Said(cfg, states, events, ContentOf(m'.flight[k].env))
    {
      FlightSaid(cfg, states, events, k);
    }
    forall u, k | u in m'.nodes && 0 <= k < |m'.nodes[u].log|
      ensures Said(cfg, states, events, RecordContent(m'.nodes[u].log[k]))
    {
      StoredContent(cfg, m, ev, m', u, k);
      if k < |m.nodes[u].log| {
        SaidBefore(cfg, states, events, RecordContent(m.nodes[u].log[k]));
      } else {
        SaidBefore(cfg, states, events, ContentOf(m.flight[ev.i].env));
      }
    }
  }

  lemma FlightSaid(cfg: MeshConfig, states: seq<Mesh>, events: seq<Event>, k: nat)
    requires ValidConfig(cfg) && Run(cfg, states, events) && events != []
    requires AllSaid(cfg, states[..|events|], events[..|events| - 1]) && k < |states[|events|].flight|
    ensures Said(cfg, states, events, ContentOf(states[|events|].flight[k].env))
  {
    var last := |events| - 1;
    var m, ev, m' := states[last], events[last], states[last + 1];
    assert ValidMesh(cfg, m) && Next(cfg, m, ev, m');
    assert states[..|events|][last] == m;
    FlightAfter(cfg, m, ev, m', k);
    hide Next, ValidMesh, Run;
    if j :| 0 <= j < |m.flight| && m'.flight[k] == m.flight[j] {
      SaidBefore(cfg, states, events, ContentOf(m.flight[j].env));
    } else {
      SentContent(cfg, m, ev, m', m'.flight[k]);
      if ev.Originate? {
        assert Says(cfg, states[last], events[last], ContentOf(m'.flight[k].env));
      } else {
        SaidBefore(cfg, states, events, ContentOf(m.flight[ev.i].env));
      }
    }
  }

  /** In every run from an idle mesh with empty logs, every record a node has stored carries the threats, the
      number of organisms, the sender and the instant that its originator gave the gossip of that id. */
  lemma StoredAsSaid(cfg: MeshConfig, states: seq<Mesh>, events: seq<Event>, v: string, k: nat) returns (said: nat)
    requires ValidConfig(cfg) && Run(cfg, states, events)
    requires states[0].flight == [] && forall u :: u in states[0].nodes ==> states[0].nodes[u].log == []
    requires v in states[|events|].nodes && k < |states[|events|].nodes[v].log|
    ensures said < |events| && events[said].Originate? && events[said].u in states[said].clock
    ensures var r, ev := states[|events|].nodes[v].log[k], events[said];
            && r.gossipId == ev.id && r.observedThreats == ev.threats && r.observedOrganisms == ev.organisms
            && r.sender.peerId == ev.u && r.sentAt == states[said].clock[ev.u]
  {
    RunIsSaid(cfg, states, events);
    var r := states[|events|].nodes[v].log[k];
    assert Said(cfg, states, events, RecordContent(r));
    said :| 0 <= said < |events| && Says(cfg, states[said], events[said], RecordContent(r));
  }
}
