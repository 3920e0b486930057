/** What a node's registry remembers of its peers, over every sequence of arrivals, joins, own gossips, restarts
    and looks at the registry. */
module PeerTable {
  import opened Wrappers
  import opened Gossip
  import opened GossipAuth
  import opened ColonyNode
  import opened MeshReplay

  datatype PeerEvent =
    | At(ev: NodeEvent)
    /** POST /mesh/peer */
    | Join(peer: PeerRegistration, joined: Instant)
    /** any other request that reads the registry */
    | Look(looked: Instant)

  function TimeOf(e: PeerEvent): Instant {
    match e
    case At(ev) => ev.now
    case Join(_, now) => now
    case Look(now) => now
  }

  function Apply(mac: Mac, cfg: NodeConfig, n: Node, e: PeerEvent): Node {
    match e
    case At(ev) => MeshReplay.Apply(mac, cfg, n, ev)
    case Join(peer, now) => n.(peers := RegisterPeer(n.peers, peer, now))
    case Look(now) => n.(peers := LivePeers(n.peers, now))
  }

  function After(mac: Mac, cfg: NodeConfig, n: Node, events: seq<PeerEvent>): Node {
    if events == [] then n
    else Apply(mac, cfg, After(mac, cfg, n, events[..|events| - 1]), events[|events| - 1])
  }

  /** Clocks never run backwards. */
  ghost predicate Monotone(events: seq<PeerEvent>) {
    forall i, j :: 0 <= i < j < |events| ==> TimeOf(events[i]) <= TimeOf(events[j])
  }

  // ----- contacts ------------------------------------------------------------

  /** A peer makes itself known: when, and what it announces. */
  datatype Contact = Contact(at: Instant, address: string, role: string)

  /** The contact an event makes with p, if any: a join, or an accepted gossip that p originated. */
  function ContactOf(mac: Mac, cfg: NodeConfig, n: Node, e: PeerEvent, p: string): Option<Contact> {
    match e
    case Join(peer, now) => if peer.peerId == p then Some(Contact(now, peer.address, peer.role)) else None
    case At(Arrive(env, now)) =>
      if env.sender.peerId == p && Receive(mac, cfg, n, env, now).1.Accepted?
      then Some(Contact(now, env.sender.address, env.sender.role)) else None
    case _ => None
  }

  function Contacts(mac: Mac, cfg: NodeConfig, n: Node, events: seq<PeerEvent>, p: string): seq<Contact> {
    if events == [] then []
    else
      var init := events[..|events| - 1];
      var c := ContactOf(mac, cfg, After(mac, cfg, n, init), events[|events| - 1], p);
      Contacts(mac, cfg, n, init, p) + if c.Some? then [c.value] else []
  }

  /** A peer is forgotten 3601 seconds after it was last heard. */
  predicate Forgotten(heard: Instant, t: Instant) {
    t - heard >= 3601 * 1_000_000_000
  }

  /** Where the present membership begins: no contact from there on came too late for the one before it. */
  function Membership(cs: seq<Contact>): (j: nat)
    requires cs != []
    ensures j < |cs|
    ensures forall i :: j < i < |cs| ==> !Forgotten(cs[i - 1].at, cs[i].at)
    ensures j > 0 ==> Forgotten(cs[j - 1].at, cs[j].at)
  {
    var last := |cs| - 1;
    if last == 0 || Forgotten(cs[last - 1].at, cs[last].at) then last else Membership(cs[..last])
  }

  /** Whether the membership of the initial registry goes on through all contacts. */
  predicate Continues(initial: Option<MeshPeer>, cs: seq<Contact>)
    requires cs != []
  {
    Membership(cs) == 0 && initial.Some? && !Forgotten(initial.value.lastSeen, cs[0].at)
  }

  /** What the registry should hold for a peer with these contacts. */
  function Remembered(initial: Option<MeshPeer>, cs: seq<Contact>): Option<MeshPeer> {
    if cs == [] then initial
    else
      var last := cs[|cs| - 1];
      if Continues(initial, cs) then
        Some(MeshPeer(last.address, last.role, initial.value.firstSeen, last.at, initial.value.heartbeatCount + |cs|))
      else
        Some(MeshPeer(last.address, last.role, cs[Membership(cs)].at, last.at, |cs| - Membership(cs)))
  }

  function Initial(n: Node, p: string): Option<MeshPeer> {
    if p in n.peers then Some(n.peers[p]) else None
  }

  // ----- one step ------------------------------------------------------------

  lemma WholeSecondsExact(d: int)
    ensures WholeSeconds(d) <= 3600 <==> d < 3601 * 1_000_000_000
  {
  }

  /** The registry agrees with the contacts at time t: an entry holds what should be remembered, and only
      forgotten peers may be missing. */
  ghost predicate Agrees(peers: Registry, p: string, expected: Option<MeshPeer>, t: Instant) {
    if p in peers then expected == Some(peers[p])
    else expected.None? || Forgotten(expected.value.lastSeen, t)
  }

  lemma LiveAt(peers: Registry, p: string, t: Instant)
    ensures p in LivePeers(peers, t) <==> p in peers && !Forgotten(peers[p].lastSeen, t)
    ensures p in LivePeers(peers, t) ==> LivePeers(peers, t)[p] == peers[p]
  {
    if p in peers {
      WholeSecondsExact(t - peers[p].lastSeen);
    }
  }

  /** Looking at the registry, or registering somebody else, keeps the agreement. */
  lemma LookKeeps(peers: Registry, p: string, expected: Option<MeshPeer>, before: Instant, t: Instant)
    requires Agrees(peers, p, expected, before) && before <= t
    ensures Agrees(LivePeers(peers, t), p, expected, t)
  {
    LiveAt(peers, p, t);
    hide LivePeers;
  }

  lemma OtherKeeps(peers: Registry, q: PeerRegistration, p: string, expected: Option<MeshPeer>,
                   before: Instant, t: Instant)
    requires Agrees(peers, p, expected, before) && before <= t && q.peerId != p
    ensures Agrees(RegisterPeer(peers, q, t), p, expected, t)
  {
    LookKeeps(peers, p, expected, before, t);
    hide LivePeers;
  }

  lemma MembershipNext(cs: seq<Contact>, c: Contact)
    requires cs != []
    ensures Membership(cs + [c])
            == if Forgotten(cs[|cs| - 1].at, c.at) then |cs| else Membership(cs)
  {
    assert (cs + [c])[..|cs|] == cs;
  }

  /** A contact leaves what should be remembered after it. */
  lemma ContactKeeps(peers: Registry, q: PeerRegistration, initial: Option<MeshPeer>, cs: seq<Contact>,
                     before: Instant, t: Instant)
    requires Agrees(peers, q.peerId, Remembered(initial, cs), before) && before <= t
    ensures Agrees(RegisterPeer(peers, q, t), q.peerId,
                   Remembered(initial, cs + [Contact(t, q.address, q.role)]), t)
  {
    var c := Contact(t, q.address, q.role);
    LiveAt(peers, q.peerId, t);
    hide LivePeers;
    if cs != [] {
      MembershipNext(cs, c);
    } else {
      assert cs + [c] == [c];
    }
  }

  lemma StepAgrees(mac: Mac, cfg: NodeConfig, n: Node, e: PeerEvent, p: string, initial: Option<MeshPeer>,
                   cs: seq<Contact>, before: Instant)
    requires Agrees(n.peers, p, Remembered(initial, cs), before) && before <= TimeOf(e)
    ensures var c := ContactOf(mac, cfg, n, e, p);
            Agrees(Apply(mac, cfg, n, e).peers, p,
                   Remembered(initial, cs + if c.Some? then [c.value] else []), TimeOf(e))
  {
    hide Remembered, LivePeers, RegisterPeer, MarkSeen, Agrees;
    var t := TimeOf(e);
    assert cs + [] == cs;
    LookKeeps(n.peers, p, Remembered(initial, cs), before, t);
    Untouched(n.peers, p, Remembered(initial, cs), before, t);
    if e.Join? || (e.At? && e.ev.Arrive?) {
      var q := if e.Join? then e.peer else e.ev.env.sender;
      if q.peerId == p {
        ContactKeeps(n.peers, q, initial, cs, before, t);
      } else {
        OtherKeeps(n.peers, q, p, Remembered(initial, cs), before, t);
      }
    }
  }

  lemma Untouched(peers: Registry, p: string, expected: Option<MeshPeer>, before: Instant, t: Instant)
    requires Agrees(peers, p, expected, before) && before <= t
    ensures Agrees(peers, p, expected, t)
  {
  }

  // ----- whole runs ----------------------------------------------------------

  lemma {:induction false} RunAgrees(mac: Mac, cfg: NodeConfig, n: Node, events: seq<PeerEvent>, p: string, t: Instant)
    requires Monotone(events) && (events != [] ==> TimeOf(events[|events| - 1]) <= t)
    ensures Agrees(After(mac, cfg, n, events).peers, p,
                   Remembered(Initial(n, p), Contacts(mac, cfg, n, events, p)), t)
  {
    if events != [] {
      var init, last := events[..|events| - 1], events[|events| - 1];
      var before := TimeOf(last);
      RunAgrees(mac, cfg, n, init, p, before);
      hide Remembered, Agrees, ContactOf, Apply;
      StepAgrees(mac, cfg, After(mac, cfg, n, init), last, p, Initial(n, p), Contacts(mac, cfg, n, init, p), before);
      Untouched(After(mac, cfg, n, events).peers, p, Remembered(Initial(n, p), Contacts(mac, cfg, n, events, p)),
                before, t);
    }
  }

  /** In every run a peer is live at time t exactly when less than 3601 seconds have passed since its last
      contact or, without any, since the initial registry last saw it. Its address and role are those of the last
      contact, it was first seen when its present membership began, and its count is the number of contacts
      since then, on top of the initial count if that membership is the initial one. */
  lemma PeerIsRemembered(mac: Mac, cfg: NodeConfig, n: Node, events: seq<PeerEvent>, p: string, t: Instant)
    requires Monotone(events) && (events != [] ==> TimeOf(events[|events| - 1]) <= t)
    ensures var live := LivePeers(After(mac, cfg, n, events).peers, t);
            var cs := Contacts(mac, cfg, n, events, p);
            && (p in live <==>
                  if cs != [] then t - cs[|cs| - 1].at < 3601 * 1_000_000_000
                  else p in n.peers && t - n.peers[p].lastSeen < 3601 * 1_000_000_000)
            && (p in live && cs == [] ==> live[p] == n.peers[p])
            && (p in live && cs != [] ==>
                  && live[p].lastSeen == cs[|cs| - 1].at
                  && live[p].address == cs[|cs| - 1].address && live[p].role == cs[|cs| - 1].role
                  && var j := Membership(cs);
                     if j == 0 && p in n.peers && cs[0].at - n.peers[p].lastSeen < 3601 * 1_000_000_000
                     then live[p].firstSeen == n.peers[p].firstSeen
                          && live[p].heartbeatCount == n.peers[p].heartbeatCount + |cs|
                     else live[p].firstSeen == cs[j].at && live[p].heartbeatCount == |cs| - j)
  {
    RunAgrees(mac, cfg, n, events, p, t);
    LiveAt(After(mac, cfg, n, events).peers, p, t);
    hide LivePeers, After, Contacts;
  }
}
