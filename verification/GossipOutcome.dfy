/** The verdict on an arriving gossip, and the dedup cache at its limit, in literal terms. */
module GossipOutcome {
  import opened Wrappers
  import opened Gossip
  import opened GossipAuth
  import opened ColonyNode

  /** Some listed key gives the envelope's text the tag it carries, and that tag is not empty. */
  ghost predicate Authentic(mac: Mac, e: Envelope, keys: seq<string>) {
    e.hmac.Some? && e.hmac.value != [] && exists key :: key in keys && mac(key, SigningPayload(e)) == e.hmac.value
  }

  lemma StaleExact(d: int)
    ensures WholeSeconds(d) > 300 <==> d >= 301 * 1_000_000_000
  {
  }

  lemma AuthenticExact(mac: Mac, e: Envelope, keys: seq<string>)
    ensures VerifiesAny(mac, e, keys) <==> Authentic(mac, e, keys)
  {
    if k :| 0 <= k < |keys| && Verifies(mac, e, keys[k]) {
      assert keys[k] in keys;
    }
    if Authentic(mac, e, keys) {
      var key :| key in keys && mac(key, SigningPayload(e)) == e.hmac.value;
      var k :| 0 <= k < |keys| && keys[k] == key;
      assert Verifies(mac, e, keys[k]);
    }
  }

  /** The five verdicts, in the order in which they are reached: sent 301 seconds ago or more; keys are listed and
      none of them verifies; no hops left; the id was seen within the window; accepted, and relayed exactly with
      more than one hop left. Only the last one stores, and it stores the gossip as it came. */
  lemma OutcomeExact(mac: Mac, cfg: NodeConfig, n: Node, e: Envelope, now: Instant)
    ensures var (n', o) := Receive(mac, cfg, n, e, now);
            var stale := now - e.sentAt >= 301 * 1_000_000_000;
            var refused := cfg.verifyKeys != [] && !Authentic(mac, e, cfg.verifyKeys);
            var known := e.gossipId in n.seen && now / 1_000_000_000 - n.seen[e.gossipId] <= cfg.dedupWindow;
            && (o == StaleReplay <==> stale)
            && (o == AuthFailed <==> !stale && refused)
            && (o == DroppedTtl <==> !stale && !refused && e.ttlHops == 0)
            && (o == Duplicate <==> !stale && !refused && e.ttlHops != 0 && known)
            && (o.Accepted? <==> !stale && !refused && e.ttlHops != 0 && !known)
            && (o.Accepted? ==> (o.relayed <==> e.ttlHops > 1))
            && n'.log == (if o.Accepted?
                          then n.log + [GossipRecord(e.gossipId, e.sender, e.observedThreats, e.observedOrganisms,
                                                     e.sentAt, now)]
                          else n.log)
  {
    StaleExact(now - e.sentAt);
    AuthenticExact(mac, e, cfg.verifyKeys);
    hide VerifiesAny, Authentic, WholeSeconds, RegisterPeer, LivePeers;
  }

  // ----- the cache -----------------------------------------------------------

  /** The entries no older than `age`. */
  ghost function Within(seen: SeenCache, nowS: int, age: int): set<string> {
    set id | id in seen && nowS - seen[id] <= age
  }

  lemma RetainIs(seen: SeenCache, nowS: int, age: int)
    ensures Retain(seen, nowS, age).Keys == Within(seen, nowS, age)
    ensures |Retain(seen, nowS, age)| == |Within(seen, nowS, age)|
  {
    assert Retain(seen, nowS, age).Keys == Within(seen, nowS, age);
    assert |Retain(seen, nowS, age)| == |Retain(seen, nowS, age).Keys|;
  }

  lemma RetainTwice(seen: SeenCache, nowS: int, age: int, younger: int)
    requires younger <= age
    ensures Retain(Retain(seen, nowS, age), nowS, younger) == Retain(seen, nowS, younger)
  {
  }

  /** Which ids survive when a new one is marked: with fewer than 10,000 ids inside the window, all of those; with
      more, but fewer than 10,000 inside half the window, those; otherwise none. An id that is already known
      inside the window is not marked again, and then nothing inside the window is forgotten. */
  lemma SurvivorsExact(seen: SeenCache, id: string, nowS: int, window: int)
    requires window > 0
    ensures var (seen', isNew) := MarkSeen(seen, id, nowS, window);
            var age := if !isNew || |Within(seen, nowS, window)| < 10_000 then window
                       else if |Within(seen, nowS, window / 2)| < 10_000 then window / 2 else -1;
            && (isNew <==> id !in Within(seen, nowS, window))
            && (isNew ==> id in seen' && seen'[id] == nowS)
            && forall other :: (isNew ==> other != id) ==>
                 && (other in seen' <==> age >= 0 && other in Within(seen, nowS, age))
                 && (other in seen' ==> seen'[other] == seen[other])
  {
    RetainIs(seen, nowS, window);
    RetainIs(seen, nowS, window / 2);
    RetainTwice(seen, nowS, window, window / 2);
    assert Half(window) == window / 2;
  }
}
