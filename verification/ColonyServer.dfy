/** The running server: the fields of `AppState` and `Storage` that the mesh handlers update
    in place, each method proved against the value-level operations of ColonyNode. */
module ColonyServer {
  import opened Wrappers
  import opened Gossip
  import opened GossipAuth
  import opened ColonyNode
  import opened Mesh
  import opened PeerBreaker

  datatype AckStatus = AckStale | AckAuthFailed | AckDroppedTtl | AckDuplicate | AckOk

  datatype GossipAck = GossipAck(status: AckStatus, duplicate: bool, relayed: bool,
                                 ttlHopsRemaining: Hops, knownPeerCount: nat)

  function StatusOf(o: Outcome): AckStatus {
    match o
    case StaleReplay => AckStale
    case AuthFailed => AckAuthFailed
    case DroppedTtl => AckDroppedTtl
    case Duplicate => AckDuplicate
    case Accepted(_) => AckOk
  }

  class AppState {
    const mac: Mac
    const cfg: NodeConfig
    var peers: Registry
    var seen: SeenCache
    var log: seq<GossipRecord>
    var peerFailures: Failures

    constructor (mac: Mac, cfg: NodeConfig, peers: Registry, log: seq<GossipRecord>, now: Instant)
      ensures this.mac == mac && this.cfg == cfg && peerFailures == map[]
      ensures View() == Restart(cfg, Node(peers, map[], log), now)
    {
      this.mac, this.cfg := mac, cfg;
      this.peers, this.log, this.peerFailures := peers, log, map[];
      this.seen := map[];
      new;
      LoadSeenGossip(now);
    }

    ghost function View(): Node
      reads this
    {
      Node(peers, seen, log)
    }

    /** storage.rs, 196-224 */
    method LoadSeenGossip(now: Instant)
      modifies this`seen
      ensures seen == LoadSeen(log, Timestamp(now), cfg.dedupWindow)
    {
      seen := map[];
      for i := 0 to |log|
        invariant seen == LoadSeen(log[..i], Timestamp(now), cfg.dedupWindow)
      {
        assert log[..i + 1][..i] == log[..i];
        var ts := Timestamp(log[i].receivedAt);
        if Timestamp(now) - ts <= cfg.dedupWindow {
          seen := seen[log[i].gossipId := ts];
        }
      }
      assert log[..|log|] == log;
    }

    /** storage.rs, 226-247 */
    method GetMeshRegistry(now: Instant) returns (live: Registry)
      modifies this`peers
      ensures peers == live == LivePeers(old(peers), now)
    {
      live := map p | p in peers && WholeSeconds(now - peers[p].lastSeen) <= PEER_TIMEOUT_S :: peers[p];
      peers := live;
    }

    /** storage.rs, 129-154 */
    method RegisterPeer(peer: PeerRegistration, now: Instant)
      modifies this`peers
      ensures peers == ColonyNode.RegisterPeer(old(peers), peer, now)
    {
      var registry := GetMeshRegistry(now);
      if peer.peerId in registry {
        var known := registry[peer.peerId];
        registry := registry[peer.peerId := known.(address := peer.address, role := peer.role, lastSeen := now,
                                                   heartbeatCount := known.heartbeatCount + 1)];
      } else {
        registry := registry[peer.peerId := MeshPeer(peer.address, peer.role, now, now, 1)];
      }
      peers := registry;
    }

    /** storage.rs, 171-193 */
    method StoreGossip(e: Envelope, now: Instant)
      modifies this`peers, this`log
      ensures peers == ColonyNode.RegisterPeer(old(peers), e.sender, now)
      ensures log == old(log) + [RecordOf(e, now)]
    {
      RegisterPeer(e.sender, now);
      log := log + [RecordOf(e, now)];
    }

    /** main.rs, 574-595 */
    method MarkGossipSeen(id: string, now: Instant) returns (isNew: bool)
      modifies this`seen
      ensures (seen, isNew) == MarkSeen(old(seen), id, Timestamp(now), cfg.dedupWindow)
    {
      var nowS := Timestamp(now);
      seen := map k | k in seen && nowS - seen[k] <= cfg.dedupWindow :: seen[k];
      if id in seen {
        return false;
      }
      if |seen| >= CACHE_LIMIT {
        seen := map k | k in seen && nowS - seen[k] <= Half(cfg.dedupWindow) :: seen[k];
        if |seen| >= CACHE_LIMIT {
          seen := map[];
        }
      }
      seen := seen[id := nowS];
      return true;
    }

    /** main.rs, 287-442. `relay` is what the spawned relay task is given: the envelope with one
        hop less and the peer to leave out. */
    method HandleMeshGossip(e: Envelope, now: Instant)
      returns (ack: GossipAck, relay: Option<(Envelope, Option<string>)>)
      modifies this`peers, this`seen, this`log
      ensures View() == Receive(mac, cfg, old(View()), e, now).0
      ensures var o := Receive(mac, cfg, old(View()), e, now).1;
              && ack == GossipAck(StatusOf(o), o == Duplicate, o == Accepted(true),
                                  if o == Accepted(true) then e.ttlHops - 1 else e.ttlHops,
                                  |LivePeers(peers, now)|)
              && relay == if o == Accepted(true)
                          then Some((e.(ttlHops := e.ttlHops - 1), Some(e.sender.peerId)))
                          else None
    {
      hide MarkSeen, VerifiesAny;
      relay := None;
      if WholeSeconds(now - e.sentAt) > MAX_AGE_S {
        ack := Reject(AckStale, e, now);
        return;
      }
      if cfg.verifyKeys != [] {
        var ok := VerifySignatureWithAnyKey(mac, e, cfg.verifyKeys);
        if !ok {
          ack := Reject(AckAuthFailed, e, now);
          return;
        }
      }
      if e.ttlHops == 0 {
        ack := Reject(AckDroppedTtl, e, now);
        return;
      }
      var isNew := MarkGossipSeen(e.gossipId, now);
      if !isNew {
        ack := Reject(AckDuplicate, e, now);
        return;
      }
      StoreGossip(e, now);
      RegisteredIsLive(peers, old(peers), e.sender, now);
      var live := GetMeshRegistry(now);
      if e.ttlHops > 1 {
        relay := Some((e.(ttlHops := e.ttlHops - 1), Some(e.sender.peerId)));
        ack := GossipAck(AckOk, false, true, e.ttlHops - 1, |live|);
      } else {
        ack := GossipAck(AckOk, false, false, e.ttlHops, |live|);
      }
    }

    method Reject(status: AckStatus, e: Envelope, now: Instant) returns (ack: GossipAck)
      modifies this`peers
      ensures peers == LivePeers(old(peers), now)
      ensures ack == GossipAck(status, status == AckDuplicate, false, e.ttlHops, |LivePeers(peers, now)|)
    {
      var live := GetMeshRegistry(now);
      assert LivePeers(live, now) == live;
      ack := GossipAck(status, status == AckDuplicate, false, e.ttlHops, |live|);
    }

    /** main.rs, 673-764. `order` is the order in which the registry's map yields its peers and
        `replies` what the network does with each attempt. The result lists one copy per
        attempt that arrives; `path` is the history those copies carry. */
    method SendGossipToPeers(e: Envelope, exclude: Option<string>, now: Instant, order: seq<string>,
                             replies: Network, path: seq<string>)
      returns (out: seq<Copy>)
      requires multiset(order) == multiset(LivePeers(peers, now).Keys)
      requires forall p :: ValidReplies(replies(p))
      modifies this`peers, this`peerFailures
      ensures peers == LivePeers(old(peers), now)
      ensures Fanout(out, SignIfKeyed(mac, e, cfg.signingKey), Targets(cfg, peers, exclude), path)
      ensures forall t :: t in Targets(cfg, peers, exclude) && !Open(old(peerFailures), t) && Answered(replies(t))
                          ==> CopiesTo(out, t) > 0
      ensures forall t :: Open(old(peerFailures), t) ==> CopiesTo(out, t) == 0
      ensures peerFailures == AfterRound(old(peerFailures), Chosen(cfg, order, exclude), replies)
    {
      hide LivePeers, SignIfKeyed, Targets, CopiesFor, AfterPeer, AfterRound, Chosen, Progress, Fanout;
      var live := GetMeshRegistry(now);
      DistinctOrder(order, live.Keys);
      var outbound := SignIfKeyed(mac, e, cfg.signingKey);
      ghost var plan := Plan(cfg, exclude, Targets(cfg, live, exclude), peerFailures, replies, outbound, path);
      out := [];
      Begins(plan);
      for i := 0 to |order|
        invariant peers == live
        invariant Progress(plan, order[..i], out, peerFailures)
      {
        var p := order[i];
        assert order[..i + 1] == order[..i] + [p] && p !in order[..i];
        assert p in plan.chosen <==> p != cfg.nodeId && exclude != Some(p) by {
          TargetIs(cfg, live, exclude, p);
        }
        if p == cfg.nodeId || exclude == Some(p) {
          Skips(plan, order[..i], out, peerFailures, p);
          continue;
        }
        ghost var before := peerFailures;
        var copies := VisitPeer(outbound, p, replies(p), path);
        Visits(plan, order[..i], out, before, p, copies, peerFailures);
        out := out + copies;
      }
      assert order[..|order|] == order;
      forall t | t in plan.chosen
        ensures t in order
      {
        TargetIs(cfg, live, exclude, t);
      }
      Finishes(plan, order, out, peerFailures);
    }

    /** One peer: the circuit breaker, the attempts and the failure count, main.rs, 705-762. */
    method VisitPeer(outbound: Envelope, p: string, replies: seq<Reply>, path: seq<string>) returns (copies: seq<Copy>)
      requires ValidReplies(replies)
      modifies this`peerFailures
      ensures peerFailures == AfterPeer(old(peerFailures), p, replies)
      ensures CopiesFor(copies, p, Open(old(peerFailures), p), replies, outbound, path)
    {
      if p in peerFailures && peerFailures[p] >= BREAKER_LIMIT {
        return [];
      }
      var success;
      copies, success := SendWithRetries(outbound, p, replies, path);
      if !success {
        peerFailures := peerFailures[p := (if p in peerFailures then peerFailures[p] else 0) + 1];
      } else {
        peerFailures := peerFailures - {p};
      }
    }

    /** The retry loop, main.rs, 716-748. */
    method SendWithRetries(outbound: Envelope, to: string, replies: seq<Reply>, path: seq<string>)
      returns (copies: seq<Copy>, success: bool)
      requires ValidReplies(replies)
      ensures success <==> Answered(replies)
      ensures forall k :: 0 <= k < |copies| ==> copies[k] == Copy(outbound, to, path)
      ensures |copies| <= 3 && (success ==> copies != [])
    {
      copies, success := [], false;
      var attempts := 0;
      while attempts < MAX_ATTEMPTS
        invariant 0 <= attempts <= MAX_ATTEMPTS && |copies| <= attempts
        invariant forall k :: 0 <= k < attempts ==> !replies[k].acknowledged
        invariant forall k :: 0 <= k < |copies| ==> copies[k] == Copy(outbound, to, path)
      {
        if replies[attempts].arrived {
          copies := copies + [Copy(outbound, to, path)];
        }
        if replies[attempts].acknowledged {
          return copies, true;
        }
        attempts := attempts + 1;
      }
    }

    /** One round of `run_gossip_loop`, main.rs, 611-665. */
    method GossipRound(id: string, threats: seq<string>, organisms: nat, now: Instant, order: seq<string>,
                       replies: Network)
      returns (out: seq<Copy>)
      requires multiset(order) == multiset(LivePeers(peers, now).Keys)
      requires forall p :: ValidReplies(replies(p))
      modifies this`peers, this`seen, this`peerFailures
      ensures if LivePeers(old(peers), now) == map[]
              then out == [] && View() == old(View()).(peers := map[])
              else && View() == MarkOwn(cfg, old(View()), id, now)
                   && Fanout(out, NewEnvelope(mac, cfg, id, threats, organisms, now),
                             Targets(cfg, peers, None), [cfg.nodeId])
    {
      hide MarkSeen, Fanout, Targets, LivePeers;
      var live := GetMeshRegistry(now);
      if live == map[] {
        return [];
      }
      var envelope := Envelope(id, cfg.maxHops, PeerRegistration(cfg.nodeId, cfg.address, cfg.role),
                               threats, organisms, now, None);
      if cfg.signingKey.Some? {
        envelope := Sign(mac, envelope, cfg.signingKey.value);
      }
      var _ := MarkGossipSeen(id, now);
      LiveAgain(old(peers), now);
      out := SendGossipToPeers(envelope, None, now, order, replies, [cfg.nodeId]);
    }
  }

  // ----- lemmas about the loops ----------------------------------------------

  /** The copies one visited peer contributes. */
  ghost predicate CopiesFor(copies: seq<Copy>, p: string, open: bool, r: seq<Reply>, outbound: Envelope,
                            path: seq<string>)
  {
    && (forall k :: 0 <= k < |copies| ==> copies[k] == Copy(outbound, p, path))
    && |copies| <= MAX_ATTEMPTS
    && (open ==> copies == [])
    && (!open && Answered(r) ==> copies != [])
  }

  /** The copies sent after visiting some of the peers. */
  ghost predicate SentTo(out: seq<Copy>, visited: seq<string>, chosen: set<string>, failures: Failures,
                         replies: Network, outbound: Envelope, path: seq<string>)
  {
    && (forall k :: 0 <= k < |out| ==> out[k].env == outbound && out[k].path == path && out[k].to in chosen)
    && (forall t :: t !in visited ==> CopiesTo(out, t) == 0)
    && (forall t :: CopiesTo(out, t) <= MAX_ATTEMPTS)
    && (forall t :: (t in visited && t in chosen && !Open(failures, t) && Answered(replies(t)))
                    ==> CopiesTo(out, t) > 0)
    && (forall t :: Open(failures, t) ==> CopiesTo(out, t) == 0)
  }

  /** What one call of send_gossip_to_peers is given, and the failure counts it starts from. */
  datatype Plan = Plan(cfg: NodeConfig, exclude: Option<string>, chosen: set<string>, failures: Failures,
                       replies: Network, outbound: Envelope, path: seq<string>)

  /** The state of the send after some peers have been visited. */
  ghost predicate Progress(plan: Plan, visited: seq<string>, out: seq<Copy>, failures: Failures) {
    && (forall i, j :: 0 <= i < j < |visited| ==> visited[i] != visited[j])
    && failures == AfterRound(plan.failures, Chosen(plan.cfg, visited, plan.exclude), plan.replies)
    && SentTo(out, visited, plan.chosen, plan.failures, plan.replies, plan.outbound, plan.path)
  }

  lemma TargetIs(cfg: NodeConfig, live: Registry, exclude: Option<string>, p: string)
    ensures p in Targets(cfg, live, exclude) <==> p in live && p != cfg.nodeId && exclude != Some(p)
  {
  }

  lemma Begins(plan: Plan)
    ensures Progress(plan, [], [], plan.failures)
  {
  }

  lemma Skips(plan: Plan, visited: seq<string>, out: seq<Copy>, failures: Failures, p: string)
    requires Progress(plan, visited, out, failures) && p !in visited
    requires p !in plan.chosen && (p == plan.cfg.nodeId || plan.exclude == Some(p))
    ensures Progress(plan, visited + [p], out, failures)
  {
    hide SentTo, AfterRound;
    ChosenSnoc(plan.cfg, visited, p, plan.exclude);
    assert Chosen(plan.cfg, visited, plan.exclude) + [] == Chosen(plan.cfg, visited, plan.exclude);
    SkippedPeer(out, visited, p, plan.chosen, plan.failures, plan.replies, plan.outbound, plan.path);
  }

  lemma Visits(plan: Plan, visited: seq<string>, out: seq<Copy>, failures: Failures, p: string,
               copies: seq<Copy>, failures': Failures)
    requires Progress(plan, visited, out, failures) && p !in visited
    requires p in plan.chosen && p != plan.cfg.nodeId && plan.exclude != Some(p)
    requires CopiesFor(copies, p, Open(failures, p), plan.replies(p), plan.outbound, plan.path)
    requires failures' == AfterPeer(failures, p, plan.replies(p))
    ensures Progress(plan, visited + [p], out + copies, failures')
  {
    hide SentTo, AfterRound, AfterPeer, CopiesFor, Open;
    ChosenSnoc(plan.cfg, visited, p, plan.exclude);
    var order := visited + [p];
    assert order[..|visited|] == visited;
    FailuresOfUnvisited(plan.cfg, plan.failures, order, |visited|, plan.exclude, plan.replies);
    AfterRoundSnoc(plan.failures, Chosen(plan.cfg, visited, plan.exclude), p, plan.replies);
    VisitedPeer(out, copies, visited, p, plan.chosen, plan.failures, plan.replies, plan.outbound, plan.path);
  }

  lemma Finishes(plan: Plan, order: seq<string>, out: seq<Copy>, failures: Failures)
    requires Progress(plan, order, out, failures) && forall t :: t in plan.chosen ==> t in order
    ensures Fanout(out, plan.outbound, plan.chosen, plan.path)
    ensures forall t :: t in plan.chosen && !Open(plan.failures, t) && Answered(plan.replies(t))
                        ==> CopiesTo(out, t) > 0
    ensures forall t :: Open(plan.failures, t) ==> CopiesTo(out, t) == 0
    ensures failures == AfterRound(plan.failures, Chosen(plan.cfg, order, plan.exclude), plan.replies)
  {
  }

  lemma SkippedPeer(out: seq<Copy>, visited: seq<string>, p: string, chosen: set<string>, failures: Failures,
                    replies: Network, outbound: Envelope, path: seq<string>)
    requires SentTo(out, visited, chosen, failures, replies, outbound, path) && p !in chosen
    ensures SentTo(out, visited + [p], chosen, failures, replies, outbound, path)
  {
  }

  lemma VisitedPeer(out: seq<Copy>, copies: seq<Copy>, visited: seq<string>, p: string, chosen: set<string>,
                    failures: Failures, replies: Network, outbound: Envelope, path: seq<string>)
    requires SentTo(out, visited, chosen, failures, replies, outbound, path) && p in chosen && p !in visited
    requires CopiesFor(copies, p, Open(failures, p), replies(p), outbound, path)
    ensures SentTo(out + copies, visited + [p], chosen, failures, replies, outbound, path)
  {
    CopiesAppend(out, copies);
    assert CopiesTo(copies, p) == |copies|;
    forall t | t != p
      ensures CopiesTo(out + copies, t) == CopiesTo(out, t)
    {
      assert forall k :: 0 <= k < |copies| ==> copies[k].to != t;
    }
  }

  lemma AfterRoundSnoc(f: Failures, order: seq<string>, p: string, replies: Network)
    ensures AfterRound(f, order + [p], replies) == AfterPeer(AfterRound(f, order, replies), p, replies(p))
  {
    assert (order + [p])[..|order|] == order;
  }

  /** A peer's breaker is read before anything in this round has touched it. */
  lemma FailuresOfUnvisited(cfg: NodeConfig, f: Failures, order: seq<string>, i: nat, exclude: Option<string>,
                            replies: Network)
    requires i < |order| && forall j, k :: 0 <= j < k < |order| ==> order[j] != order[k]
    ensures Open(AfterRound(f, Chosen(cfg, order[..i], exclude), replies), order[i]) <==> Open(f, order[i])
  {
    ChosenDistinct(cfg, order[..i], exclude);
    assert order[i] !in order[..i];
    RoundAtPeer(f, Chosen(cfg, order[..i], exclude), replies, order[i]);
  }

  lemma LiveAgain(peers: Registry, now: Instant)
    ensures LivePeers(LivePeers(peers, now), now) == LivePeers(peers, now)
  {
  }

  lemma RegisteredIsLive(peers: Registry, before: Registry, peer: PeerRegistration, now: Instant)
    requires peers == ColonyNode.RegisterPeer(before, peer, now)
    ensures LivePeers(peers, now) == peers
  {
  }

  /** The peers a send visits, in order. */
  function Chosen(cfg: NodeConfig, order: seq<string>, exclude: Option<string>): seq<string> {
    if order == [] then []
    else
      var last := order[|order| - 1];
      var init := Chosen(cfg, order[..|order| - 1], exclude);
      if last == cfg.nodeId || exclude == Some(last) then init else init + [last]
  }

  lemma ChosenSnoc(cfg: NodeConfig, order: seq<string>, p: string, exclude: Option<string>)
    ensures Chosen(cfg, order + [p], exclude)
            == Chosen(cfg, order, exclude) + if p == cfg.nodeId || exclude == Some(p) then [] else [p]
  {
    assert (order + [p])[..|order|] == order;
  }

  lemma {:induction false} ChosenDistinct(cfg: NodeConfig, order: seq<string>, exclude: Option<string>)
    requires forall i, j :: 0 <= i < j < |order| ==> order[i] != order[j]
    ensures var c := Chosen(cfg, order, exclude);
            && (forall i, j :: 0 <= i < j < |c| ==> c[i] != c[j])
            && (forall p :: p in c ==> p in order)
  {
    if order != [] {
      var init := order[..|order| - 1];
      ChosenDistinct(cfg, init, exclude);
      assert order[|order| - 1] !in init;
      assert forall p :: p in init ==> p in order;
    }
  }

  /** A map yields every key once. */
  lemma DistinctOrder(order: seq<string>, keys: set<string>)
    requires multiset(order) == multiset(keys)
    ensures forall i, j :: 0 <= i < j < |order| ==> order[i] != order[j]
    ensures forall p :: p in order <==> p in keys
  {
    forall i, j | 0 <= i < j < |order|
      ensures order[i] != order[j]
    {
      assert order == order[..j] + [order[j]] + order[j + 1..];
      assert multiset(order) == multiset(order[..j]) + multiset([order[j]]) + multiset(order[j + 1..]);
      assert order[i] in order[..j];
      assert multiset(order)[order[j]] == multiset(order[..j])[order[j]] + 1 + multiset(order[j + 1..])[order[j]];
      assert multiset(keys)[order[j]] <= 1;
    }
    assert forall p :: p in order <==> p in multiset(order);
  }

  lemma {:induction false} CopiesAppend(out: seq<Copy>, copies: seq<Copy>)
    ensures forall t :: CopiesTo(out + copies, t) == CopiesTo(out, t) + CopiesTo(copies, t)
    ensures forall t :: CopiesTo(copies, t) <= |copies|
    ensures forall t :: (forall k :: 0 <= k < |copies| ==> copies[k].to == t) ==> CopiesTo(copies, t) == |copies|
    ensures forall t :: (forall k :: 0 <= k < |copies| ==> copies[k].to != t) ==> CopiesTo(copies, t) == 0
  {
    if copies == [] {
      assert out + copies == out;
    } else {
      var init := copies[..|copies| - 1];
      CopiesAppend(out, init);
      assert (out + copies)[..|out + copies| - 1] == out + init;
      assert forall k :: 0 <= k < |init| ==> init[k] == copies[k];
    }
  }
}
