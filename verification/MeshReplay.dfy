/** Replay protection at one node, for every sequence of arrivals, own gossips and
    restarts and for every network: which gossips can be stored twice, and exactly
    which dedup windows exclude it. */
module MeshReplay {
  import opened Wrappers
  import opened Gossip
  import opened GossipAuth
  import opened ColonyNode

  datatype NodeEvent =
    | Arrive(env: Envelope, now: Instant)
    | Own(id: string, now: Instant)
    | Reboot(now: Instant)

  function Apply(mac: Mac, cfg: NodeConfig, n: Node, ev: NodeEvent): Node {
    match ev
    case Arrive(env, now) => Receive(mac, cfg, n, env, now).0
    case Own(id, now) => MarkOwn(cfg, n, id, now)
    case Reboot(now) => Restart(cfg, n, now)
  }

  function After(mac: Mac, cfg: NodeConfig, n: Node, events: seq<NodeEvent>): Node {
    if events == [] then n
    else Apply(mac, cfg, After(mac, cfg, n, events[..|events| - 1]), events[|events| - 1])
  }

  /** Clocks never run backwards, every copy of a gossip carries the sender's one `sent_at`,
      no copy arrives more than `lead` before that instant, and at no arrival or own gossip does the
      cache hold 10,000 ids that are still inside the window. */
  ghost predicate Admissible(mac: Mac, cfg: NodeConfig, n: Node, events: seq<NodeEvent>, lead: nat) {
    && (forall i, j :: 0 <= i < j < |events| ==> events[i].now <= events[j].now)
    && (forall i, j :: 0 <= i < j < |events| && events[i].Arrive? && events[j].Arrive?
                       && events[i].env.gossipId == events[j].env.gossipId
                       ==> events[i].env.sentAt == events[j].env.sentAt)
    && (forall i :: 0 <= i < |events| && events[i].Arrive?
                    ==> events[i].env.sentAt <= events[i].now + lead)
    && (forall i :: 0 <= i < |events| && !events[i].Reboot?
                    ==> |Retain(After(mac, cfg, n, events[..i]).seen, Timestamp(events[i].now), cfg.dedupWindow)|
                        < CACHE_LIMIT)
  }

  /** The seconds a cache entry must live to outlast every copy that is not yet stale. */
  function NeededWindow(lead: nat): int {
    (302 * SECOND - 2 + lead) / SECOND
  }

  // ----- the invariant -------------------------------------------------------

  /** A record is guarded while a cache entry at least as young as it covers its id, and it
      needs no guard once the window has passed. */
  ghost predicate Guarded(n: Node, r: GossipRecord, now: Instant, window: int, lead: nat) {
    && r.receivedAt <= now
    && r.sentAt <= r.receivedAt + lead
    && (Timestamp(now) - Timestamp(r.receivedAt) <= window ==>
          r.gossipId in n.seen && Timestamp(r.receivedAt) <= n.seen[r.gossipId])
  }

  ghost predicate ReplayInv(n: Node, now: Instant, window: int, lead: nat) {
    && (forall k :: 0 <= k < |n.log| ==> Guarded(n, n.log[k], now, window, lead))
    && (forall i, j :: 0 <= i < j < |n.log| ==> n.log[i].gossipId != n.log[j].gossipId)
  }

  /** The staleness cut takes over before the cache entry expires. */
  lemma StaleBeforeForgotten(r: GossipRecord, e: Envelope, now: Instant, window: int, lead: nat)
    requires window >= NeededWindow(lead)
    requires r.sentAt == e.sentAt && r.sentAt <= r.receivedAt + lead && r.receivedAt <= now
    requires !Stale(e, now)
    ensures Timestamp(now) - Timestamp(r.receivedAt) <= window
  {
    assert now - r.receivedAt <= 301 * SECOND - 1 + lead;
  }

  lemma ArriveKeeps(mac: Mac, cfg: NodeConfig, n: Node, e: Envelope, before: Instant, now: Instant, lead: nat)
    requires cfg.dedupWindow >= NeededWindow(lead)
    requires ReplayInv(n, before, cfg.dedupWindow, lead) && before <= now
    requires forall k :: 0 <= k < |n.log| && n.log[k].gossipId == e.gossipId ==> n.log[k].sentAt == e.sentAt
    requires e.sentAt <= now + lead
    requires |Retain(n.seen, Timestamp(now), cfg.dedupWindow)| < CACHE_LIMIT
    ensures ReplayInv(Receive(mac, cfg, n, e, now).0, now, cfg.dedupWindow, lead)
  {
    var n' := Receive(mac, cfg, n, e, now).0;
    if !Stale(e, now) && Admits(mac, cfg, e) && e.ttlHops != 0 {
      MarkKeepsLive(n.seen, e.gossipId, Timestamp(now), cfg.dedupWindow);
      forall k | 0 <= k < |n.log| && n.log[k].gossipId == e.gossipId
        ensures e.gossipId in Retain(n.seen, Timestamp(now), cfg.dedupWindow)
      {
        assert Guarded(n, n.log[k], before, cfg.dedupWindow, lead);
        StaleBeforeForgotten(n.log[k], e, now, cfg.dedupWindow, lead);
      }
    }
    forall k | 0 <= k < |n'.log|
      ensures Guarded(n', n'.log[k], now, cfg.dedupWindow, lead)
    {
      if k < |n.log| {
        assert Guarded(n, n.log[k], before, cfg.dedupWindow, lead);
      }
    }
  }

  lemma OwnKeeps(cfg: NodeConfig, n: Node, id: string, before: Instant, now: Instant, lead: nat)
    requires ReplayInv(n, before, cfg.dedupWindow, lead) && before <= now
    requires |Retain(n.seen, Timestamp(now), cfg.dedupWindow)| < CACHE_LIMIT
    ensures ReplayInv(MarkOwn(cfg, n, id, now), now, cfg.dedupWindow, lead)
  {
    MarkKeepsLive(n.seen, id, Timestamp(now), cfg.dedupWindow);
    forall k | 0 <= k < |n.log|
      ensures Guarded(MarkOwn(cfg, n, id, now), n.log[k], now, cfg.dedupWindow, lead)
    {
      assert Guarded(n, n.log[k], before, cfg.dedupWindow, lead);
    }
  }

  lemma RebootKeeps(cfg: NodeConfig, n: Node, before: Instant, now: Instant, lead: nat)
    requires ReplayInv(n, before, cfg.dedupWindow, lead) && before <= now
    ensures ReplayInv(Restart(cfg, n, now), now, cfg.dedupWindow, lead)
  {
    forall k | 0 <= k < |n.log|
      ensures Guarded(Restart(cfg, n, now), n.log[k], now, cfg.dedupWindow, lead)
    {
      assert Guarded(n, n.log[k], before, cfg.dedupWindow, lead);
      LoadSeenAt(n.log, Timestamp(now), cfg.dedupWindow, n.log[k].gossipId);
    }
  }

  // ----- whole runs ----------------------------------------------------------

  /** Every logged record comes from an arrival of the run. */
  lemma {:induction false} LogComesFromRun(mac: Mac, cfg: NodeConfig, n: Node, events: seq<NodeEvent>, k: nat)
    requires n.log == []
    requires k < |After(mac, cfg, n, events).log|
    ensures exists i :: 0 <= i < |events| && events[i].Arrive?
                        && RecordOf(events[i].env, events[i].now) == After(mac, cfg, n, events).log[k]
  {
    var last := |events| - 1;
    var prev := After(mac, cfg, n, events[..last]);
    if k < |prev.log| {
      LogComesFromRun(mac, cfg, n, events[..last], k);
      var i :| 0 <= i < last && events[..last][i].Arrive?
               && RecordOf(events[..last][i].env, events[..last][i].now) == prev.log[k];
      assert events[i] == events[..last][i];
    } else {
      assert events[last].Arrive?;
    }
  }

  lemma AdmissiblePrefix(mac: Mac, cfg: NodeConfig, n: Node, events: seq<NodeEvent>, lead: nat)
    requires events != [] && Admissible(mac, cfg, n, events, lead)
    ensures Admissible(mac, cfg, n, events[..|events| - 1], lead)
  {
    var init := events[..|events| - 1];
    forall i | 0 <= i < |init|
      ensures init[..i] == events[..i]
    {
    }
  }

  /** A stored gossip and a later copy of it agree on `sent_at`. */
  lemma SameSentAt(mac: Mac, cfg: NodeConfig, n: Node, events: seq<NodeEvent>, lead: nat, k: nat)
    requires n.log == [] && events != [] && Admissible(mac, cfg, n, events, lead)
    requires var last := events[|events| - 1];
             && last.Arrive? && k < |After(mac, cfg, n, events[..|events| - 1]).log|
             && After(mac, cfg, n, events[..|events| - 1]).log[k].gossipId == last.env.gossipId
    ensures After(mac, cfg, n, events[..|events| - 1]).log[k].sentAt == events[|events| - 1].env.sentAt
  {
    hide After;
    var last := |events| - 1;
    var init := events[..last];
    LogComesFromRun(mac, cfg, n, init, k);
    var i :| 0 <= i < last && init[i].Arrive? && RecordOf(init[i].env, init[i].now) == After(mac, cfg, n, init).log[k];
    assert init[i] == events[i];
  }

  lemma LastEventKeeps(mac: Mac, cfg: NodeConfig, n: Node, events: seq<NodeEvent>, before: Instant, lead: nat)
    requires n.log == [] && events != [] && cfg.dedupWindow >= NeededWindow(lead)
    requires Admissible(mac, cfg, n, events, lead)
    requires before <= events[|events| - 1].now
    requires ReplayInv(After(mac, cfg, n, events[..|events| - 1]), before, cfg.dedupWindow, lead)
    ensures ReplayInv(After(mac, cfg, n, events), events[|events| - 1].now, cfg.dedupWindow, lead)
  {
    hide ReplayInv;
    var last := |events| - 1;
    var prev := After(mac, cfg, n, events[..last]);
    match events[last] {
      case Arrive(e, now) =>
        forall k | 0 <= k < |prev.log| && prev.log[k].gossipId == e.gossipId
          ensures prev.log[k].sentAt == e.sentAt
        {
          SameSentAt(mac, cfg, n, events, lead, k);
        }
        ArriveKeeps(mac, cfg, prev, e, before, now, lead);
      case Own(id, now) => OwnKeeps(cfg, prev, id, before, now, lead);
      case Reboot(now) => RebootKeeps(cfg, prev, before, now, lead);
    }
  }

  lemma {:induction false} RunKeepsReplayInv(mac: Mac, cfg: NodeConfig, n: Node, events: seq<NodeEvent>, lead: nat)
    requires n.log == [] && events != []
    requires cfg.dedupWindow >= NeededWindow(lead)
    requires Admissible(mac, cfg, n, events, lead)
    ensures ReplayInv(After(mac, cfg, n, events), events[|events| - 1].now, cfg.dedupWindow, lead)
  {
    var last := |events| - 1;
    AdmissiblePrefix(mac, cfg, n, events, lead);
    if last == 0 {
      LastEventKeeps(mac, cfg, n, events, events[0].now, lead);
    } else {
      RunKeepsReplayInv(mac, cfg, n, events[..last], lead);
      LastEventKeeps(mac, cfg, n, events, events[..last][last - 1].now, lead);
    }
  }

  /** No gossip is ever stored twice, across restarts and under arbitrary replay. */
  lemma StoredAtMostOnce(mac: Mac, cfg: NodeConfig, n: Node, events: seq<NodeEvent>, lead: nat, id: string)
    requires n.log == []
    requires cfg.dedupWindow >= NeededWindow(lead)
    requires Admissible(mac, cfg, n, events, lead)
    ensures Stored(After(mac, cfg, n, events).log, id) <= 1
  {
    if events != [] {
      RunKeepsReplayInv(mac, cfg, n, events, lead);
      StoredAt(After(mac, cfg, n, events).log, id);
    }
  }

  // ----- the window is exact -------------------------------------------------

  ghost predicate WindowSuffices(window: int, lead: nat) {
    forall mac: Mac, cfg: NodeConfig, n: Node, events: seq<NodeEvent>, id: string ::
      cfg.dedupWindow == window && n.log == [] && Admissible(mac, cfg, n, events, lead)
      ==> Stored(After(mac, cfg, n, events).log, id) <= 1
  }

  lemma AfterTwo(mac: Mac, cfg: NodeConfig, n: Node, a: NodeEvent, b: NodeEvent)
    ensures After(mac, cfg, n, [a, b][..0]) == n
    ensures After(mac, cfg, n, [a, b][..1]) == Apply(mac, cfg, n, a)
    ensures After(mac, cfg, n, [a, b]) == Apply(mac, cfg, Apply(mac, cfg, n, a), b)
  {
    assert [a, b][..1] == [a] && [a][..0] == [];
  }

  lemma AcceptedWhenForgotten(mac: Mac, cfg: NodeConfig, n: Node, e: Envelope, now: Instant)
    requires !Stale(e, now) && cfg.verifyKeys == [] && e.ttlHops == 1
    requires forall id :: id in n.seen ==> Timestamp(now) - n.seen[id] > cfg.dedupWindow
    ensures Retain(n.seen, Timestamp(now), cfg.dedupWindow) == map[]
    ensures var n' := Receive(mac, cfg, n, e, now).0;
            n'.seen == map[e.gossipId := Timestamp(now)] && n'.log == n.log + [RecordOf(e, now)]
  {
  }

  /** The last nanosecond of the first second, and the last one at which a gossip sent `lead`
      after it is not stale. */
  function FirstArrival(): Instant {
    SECOND - 1
  }

  function SecondArrival(lead: nat): Instant {
    FirstArrival() + 301 * SECOND - 1 + lead
  }

  lemma ArrivalSeconds(lead: nat)
    ensures Timestamp(FirstArrival()) == 0 && Timestamp(SecondArrival(lead)) == NeededWindow(lead)
    ensures FirstArrival() <= SecondArrival(lead)
  {
  }

  lemma ArrivalsNotStale(e: Envelope, lead: nat)
    requires e.sentAt == FirstArrival() + lead
    ensures !Stale(e, FirstArrival()) && !Stale(e, SecondArrival(lead))
    ensures e.sentAt <= FirstArrival() + lead && e.sentAt <= SecondArrival(lead) + lead
  {
    assert WholeSeconds(FirstArrival() - e.sentAt) <= 0;
    assert SecondArrival(lead) - e.sentAt == 301 * SECOND - 1;
  }

  /** Two arrivals of one gossip that a shorter window lets through: the first at the very end
      of a second, the second one nanosecond before it would be stale. */
  lemma ReplayedTwice(mac: Mac, cfg: NodeConfig, lead: nat) returns (events: seq<NodeEvent>)
    requires 0 < cfg.dedupWindow < NeededWindow(lead)
    requires cfg.verifyKeys == []
    ensures Admissible(mac, cfg, Node(map[], map[], []), events, lead)
    ensures Stored(After(mac, cfg, Node(map[], map[], []), events).log, "g") == 2
  {
    hide FirstArrival, SecondArrival, NeededWindow, Timestamp, Stale, After, Receive, Retain;
    var first, second := FirstArrival(), SecondArrival(lead);
    var e := Envelope("g", 1, PeerRegistration("a", "", ""), [], 0, first + lead, None);
    var n0 := Node(map[], map[], []);
    ArrivalSeconds(lead);
    ArrivalsNotStale(e, lead);
    AcceptedWhenForgotten(mac, cfg, n0, e, first);
    var n1 := Receive(mac, cfg, n0, e, first).0;
    AcceptedWhenForgotten(mac, cfg, n1, e, second);
    events := [Arrive(e, first), Arrive(e, second)];
    AfterTwo(mac, cfg, n0, events[0], events[1]);
    StoredSnoc(n0.log, RecordOf(e, first), "g");
    StoredSnoc(n1.log, RecordOf(e, second), "g");
  }

  /** A window keeps every gossip from being stored twice if and only if it reaches
      `NeededWindow`. */
  lemma WindowExact(window: int, lead: nat)
    requires window > 0
    ensures WindowSuffices(window, lead) <==> NeededWindow(lead) <= window
  {
    if NeededWindow(lead) <= window {
      forall mac: Mac, cfg: NodeConfig, n: Node, events: seq<NodeEvent>, id: string |
        cfg.dedupWindow == window && n.log == [] && Admissible(mac, cfg, n, events, lead)
        ensures Stored(After(mac, cfg, n, events).log, id) <= 1
      {
        StoredAtMostOnce(mac, cfg, n, events, lead, id);
      }
    } else {
      var mac: Mac := (k, p) => [];
      var cfg := NodeConfig("a", "", "", window, 3, None, []);
      var events := ReplayedTwice(mac, cfg, lead);
      assert !WindowSuffices(window, lead);
    }
  }

  /** With senders' clocks not ahead the bound is 301 s, one more than the default of
      COLONY_GOSSIP_DEDUP_WINDOW_S. */
  lemma DefaultWindowTooShort()
    ensures NeededWindow(0) == 301
    ensures !WindowSuffices(300, 0) && WindowSuffices(301, 0)
  {
    WindowExact(300, 0);
    WindowExact(301, 0);
  }
}
