/** One colony node as a value: peer registry, dedup cache and gossip log, and what
    each operation of colony-server/src/main.rs and storage.rs makes of them. The clock
    reading of an operation is a parameter, one reading per operation. */
module ColonyNode {
  import opened Wrappers
  import opened Gossip
  import opened GossipAuth

  const MAX_AGE_S: int := 300
  const PEER_TIMEOUT_S: int := 3600
  const CACHE_LIMIT: int := 10_000
  const MAX_ATTEMPTS: int := 3
  const BREAKER_LIMIT: int := 5

  datatype NodeConfig = NodeConfig(
    nodeId: string,
    address: string,
    role: string,
    dedupWindow: int,
    maxHops: Hops,
    signingKey: Option<string>,
    verifyKeys: seq<string>)

  datatype MeshPeer = MeshPeer(address: string, role: string, firstSeen: Instant,
                               lastSeen: Instant, heartbeatCount: nat)

  datatype GossipRecord = GossipRecord(gossipId: string, sender: PeerRegistration,
                                       observedThreats: seq<string>, observedOrganisms: nat,
                                       sentAt: Instant, receivedAt: Instant)

  type Registry = map<string, MeshPeer>
  type SeenCache = map<string, int>

  datatype Node = Node(peers: Registry, seen: SeenCache, log: seq<GossipRecord>)

  // ----- peer registry -------------------------------------------------------

  /** `get_mesh_registry`: peers silent for more than an hour are evicted. */
  function LivePeers(peers: Registry, now: Instant): (live: Registry)
    ensures live.Keys <= peers.Keys
  {
    map p | p in peers && WholeSeconds(now - peers[p].lastSeen) <= PEER_TIMEOUT_S :: peers[p]
  }

  /** `register_peer`: evict, then insert or refresh. */
  function RegisterPeer(peers: Registry, peer: PeerRegistration, now: Instant): Registry {
    var live := LivePeers(peers, now);
    if peer.peerId in live then
      var known := live[peer.peerId];
      live[peer.peerId := known.(address := peer.address, role := peer.role, lastSeen := now,
                               heartbeatCount := known.heartbeatCount + 1)]
    else
      live[peer.peerId := MeshPeer(peer.address, peer.role, now, now, 1)]
  }

  /** The peers a send goes to: never the node itself, never the excluded one. */
  function Targets(cfg: NodeConfig, peers: Registry, exclude: Option<string>): set<string> {
    set p | p in peers && p != cfg.nodeId && exclude != Some(p)
  }

  // ----- dedup cache ---------------------------------------------------------

  function Retain(seen: SeenCache, nowS: int, limit: int): SeenCache {
    map id | id in seen && nowS - seen[id] <= limit :: seen[id]
  }

  /** `mark_gossip_seen`. The boolean is true when the id was not in the cache. */
  function MarkSeen(seen: SeenCache, id: string, nowS: int, window: int): (SeenCache, bool) {
    var kept := Retain(seen, nowS, window);
    if id in kept then (kept, false)
    else
      var bounded := if |kept| < CACHE_LIMIT then kept
                     else
                       var half := Retain(kept, nowS, Half(window));
                       if |half| < CACHE_LIMIT then half else map[];
      (bounded[id := nowS], true)
  }

  /** `i64` division by two, rounded toward zero. */
  function Half(w: int): int {
    if 0 <= w then w / 2 else -((-w) / 2)
  }

  /** `load_seen_gossip`: the log read in order, later records of an id overriding earlier ones. */
  function LoadSeen(log: seq<GossipRecord>, nowS: int, window: int): SeenCache {
    if log == [] then map[]
    else
      var earlier := LoadSeen(log[..|log| - 1], nowS, window);
      var last := log[|log| - 1];
      if nowS - Timestamp(last.receivedAt) <= window
      then earlier[last.gossipId := Timestamp(last.receivedAt)]
      else earlier
  }

  // ----- gossip log ----------------------------------------------------------

  function RecordOf(e: Envelope, now: Instant): GossipRecord {
    GossipRecord(e.gossipId, e.sender, e.observedThreats, e.observedOrganisms, e.sentAt, now)
  }

  /** How many times a gossip was stored. */
  function Stored(log: seq<GossipRecord>, id: string): nat {
    if log == [] then 0
    else Stored(log[..|log| - 1], id) + if log[|log| - 1].gossipId == id then 1 else 0
  }

  // ----- operations ----------------------------------------------------------

  datatype Outcome = StaleReplay | AuthFailed | DroppedTtl | Duplicate | Accepted(relayed: bool)

  predicate Stale(e: Envelope, now: Instant) {
    WholeSeconds(now - e.sentAt) > MAX_AGE_S
  }

  predicate Admits(mac: Mac, cfg: NodeConfig, e: Envelope) {
    cfg.verifyKeys == [] || VerifiesAny(mac, e, cfg.verifyKeys)
  }

  /** `handle_mesh_gossip` up to the spawning of the relay task. Every branch reads the
      registry and so evicts silent peers. */
  function Receive(mac: Mac, cfg: NodeConfig, n: Node, e: Envelope, now: Instant): (Node, Outcome) {
    var tidy := n.(peers := LivePeers(n.peers, now));
    if Stale(e, now) then (tidy, StaleReplay)
    else if !Admits(mac, cfg, e) then (tidy, AuthFailed)
    else if e.ttlHops == 0 then (tidy, DroppedTtl)
    else
      var (seen', isNew) := MarkSeen(n.seen, e.gossipId, Timestamp(now), cfg.dedupWindow);
      if !isNew then (tidy.(seen := seen'), Duplicate)
      else
        (Node(RegisterPeer(n.peers, e.sender, now), seen', n.log + [RecordOf(e, now)]),
         Accepted(e.ttlHops > 1))
  }

  /** What a relay puts on the wire: one hop less, signed again by the relaying node. */
  function RelayEnvelope(mac: Mac, cfg: NodeConfig, e: Envelope): Envelope
    requires e.ttlHops > 1
  {
    SignIfKeyed(mac, e.(ttlHops := e.ttlHops - 1), cfg.signingKey)
  }

  /** The envelope `run_gossip_loop` builds. */
  function NewEnvelope(mac: Mac, cfg: NodeConfig, id: string, threats: seq<string>, organisms: nat,
                       now: Instant): Envelope
  {
    SignIfKeyed(mac,
                Envelope(id, cfg.maxHops, PeerRegistration(cfg.nodeId, cfg.address, cfg.role),
                         threats, organisms, now, None),
                cfg.signingKey)
  }

  /** One round of `run_gossip_loop` on a node that has peers. */
  function MarkOwn(cfg: NodeConfig, n: Node, id: string, now: Instant): Node {
    n.(peers := LivePeers(n.peers, now),
       seen := MarkSeen(n.seen, id, Timestamp(now), cfg.dedupWindow).0)
  }

  /** A process restart: the cache is rebuilt from the log. */
  function Restart(cfg: NodeConfig, n: Node, now: Instant): Node {
    n.(seen := LoadSeen(n.log, Timestamp(now), cfg.dedupWindow))
  }

  // ----- facts about one operation ------------------------------------------

  lemma MapSize<K, V>(m: map<K, V>, k: K, v: V)
    ensures |m[k := v]| <= |m| + 1
    ensures k in m ==> |m[k := v]| == |m|
  {
    assert m[k := v].Keys == m.Keys + {k};
  }

  lemma RetainSize(seen: SeenCache, nowS: int, limit: int)
    ensures |Retain(seen, nowS, limit)| <= |seen|
  {
    var kept := Retain(seen, nowS, limit);
    SubsetSize(kept.Keys, seen.Keys);
  }

  lemma {:induction false} SubsetSize<T>(a: set<T>, b: set<T>)
    requires a <= b
    ensures |a| <= |b|
  {
    if a != {} {
      var x :| x in a;
      SubsetSize(a - {x}, b - {x});
    }
  }

  /** Memory stays bounded whatever the cache held before: a call that adds an id leaves at
      most 10,000 entries, all of them inside the window; any other call adds nothing. */
  lemma CacheBounded(seen: SeenCache, id: string, nowS: int, window: int)
    requires window > 0
    ensures var (seen', isNew) := MarkSeen(seen, id, nowS, window);
            && id in seen'
            && (forall k :: k in seen' ==> nowS - seen'[k] <= window)
            && (if isNew then |seen'| <= 10_000 else |seen'| <= |seen|)
  {
    RetainSize(seen, nowS, window);
    var kept := Retain(seen, nowS, window);
    if id !in kept {
      var half := Retain(kept, nowS, Half(window));
      var bounded := if |kept| < CACHE_LIMIT then kept
                     else if |half| < CACHE_LIMIT then half else map[];
      MapSize(bounded, id, nowS);
    }
  }

  /** Below the limit nothing that is still inside the window is forgotten. */
  lemma MarkKeepsLive(seen: SeenCache, id: string, nowS: int, window: int)
    requires |Retain(seen, nowS, window)| < CACHE_LIMIT
    ensures var (seen', isNew) := MarkSeen(seen, id, nowS, window);
            && (isNew <==> id !in Retain(seen, nowS, window))
            && seen' == if isNew then Retain(seen, nowS, window)[id := nowS] else Retain(seen, nowS, window)
  {
  }

  lemma {:induction false} LoadSeenAt(log: seq<GossipRecord>, nowS: int, window: int, id: string)
    ensures id in LoadSeen(log, nowS, window) <==>
            exists k :: 0 <= k < |log| && log[k].gossipId == id && nowS - Timestamp(log[k].receivedAt) <= window
    ensures id in LoadSeen(log, nowS, window) ==>
            exists k :: 0 <= k < |log| && log[k].gossipId == id
                        && nowS - Timestamp(log[k].receivedAt) <= window
                        && LoadSeen(log, nowS, window)[id] == Timestamp(log[k].receivedAt)
  {
    if log != [] {
      var init := log[..|log| - 1];
      LoadSeenAt(init, nowS, window, id);
      assert forall k :: 0 <= k < |init| ==> init[k] == log[k];
      var last := log[|log| - 1];
      assert log[|log| - 1].gossipId == last.gossipId;
    }
  }

  lemma {:induction false} StoredAt(log: seq<GossipRecord>, id: string)
    ensures Stored(log, id) == 0 <==> forall k :: 0 <= k < |log| ==> log[k].gossipId != id
    ensures Stored(log, id) <= 1 <==>
            forall i, j :: 0 <= i < j < |log| && log[i].gossipId == id ==> log[j].gossipId != id
  {
    if log != [] {
      var init := log[..|log| - 1];
      StoredAt(init, id);
      assert forall k :: 0 <= k < |init| ==> init[k] == log[k];
      if Stored(init, id) != 0 {
        var k :| 0 <= k < |init| && init[k].gossipId == id;
        assert log[k].gossipId == id;
      }
    }
  }

  lemma StoredSnoc(log: seq<GossipRecord>, r: GossipRecord, id: string)
    ensures Stored(log + [r], id) == Stored(log, id) + if r.gossipId == id then 1 else 0
  {
    assert (log + [r])[..|log|] == log;
  }
}
