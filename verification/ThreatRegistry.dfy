/** Aggregation of the threat log with majority vote on severity
    (colony-server/src/storage.rs, 307-386). */
module ThreatRegistry {
  import opened Wrappers
  import opened Gossip

  const USIZE: int := 0x1_0000_0000_0000_0000

  /** A line of the threat log. A line that is not JSON, or lacks a string `threat_id` or
      `severity`, is `Skipped`; the other fields may be missing or unreadable. */
  datatype Line =
    | Skipped
    | Sighting(threatId: string, severity: string, discoveredBy: Option<string>, firstSeen: Option<Instant>,
               count: Option<nat>, timestamp: Option<Instant>)

  datatype Threat = Threat(severity: string, discoveredBy: string, firstSeen: Instant, lastSeen: Instant,
                           observerCount: nat, totalIncidents: nat)

  type Votes = map<string, nat>

  function GetOr<T>(o: Option<T>, default: T): T {
    if o.Some? then o.value else default
  }

  // ----- what the log says about one threat ----------------------------------

  predicate IsOf(l: Line, id: string) {
    l.Sighting? && l.threatId == id
  }

  function Observers(lines: seq<Line>, id: string): nat {
    if lines == [] then 0
    else Observers(lines[..|lines| - 1], id) + if IsOf(lines[|lines| - 1], id) then 1 else 0
  }

  function Incidents(lines: seq<Line>, id: string): nat {
    if lines == [] then 0
    else
      var last := lines[|lines| - 1];
      Incidents(lines[..|lines| - 1], id) + if IsOf(last, id) then GetOr(last.count, 1) else 0
  }

  function VotesFor(lines: seq<Line>, id: string, severity: string): nat {
    if lines == [] then 0
    else
      var last := lines[|lines| - 1];
      VotesFor(lines[..|lines| - 1], id, severity) + if IsOf(last, id) && last.severity == severity then 1 else 0
  }

  /** The first sighting of a threat. */
  function First(lines: seq<Line>, id: string): (first: Option<Line>)
    ensures first.Some? <==> Observers(lines, id) > 0
    ensures first.Some? ==> IsOf(first.value, id)
  {
    if lines == [] then None
    else
      var earlier := First(lines[..|lines| - 1], id);
      if earlier.Some? then earlier
      else if IsOf(lines[|lines| - 1], id) then Some(lines[|lines| - 1]) else None
  }

  /** The latest readable timestamp after the first sighting, or the time of the scan. */
  function LastSeen(lines: seq<Line>, id: string, now: Instant): Instant {
    if lines == [] then now
    else
      var earlier := lines[..|lines| - 1];
      var last := lines[|lines| - 1];
      if IsOf(last, id) && Observers(earlier, id) > 0 && last.timestamp.Some? then last.timestamp.value
      else LastSeen(earlier, id, now)
  }

  /** Everything about a threat but its severity. */
  ghost predicate Summarizes(t: Threat, lines: seq<Line>, id: string, now: Instant) {
    && First(lines, id).Some?
    && var first := First(lines, id).value;
       && t.discoveredBy == GetOr(first.discoveredBy, "unknown")
       && t.firstSeen == GetOr(first.firstSeen, now)
       && t.lastSeen == LastSeen(lines, id, now)
       && t.observerCount == Observers(lines, id)
       && t.totalIncidents == Incidents(lines, id) % USIZE
  }

  /** A severity somebody voted for that no other severity beats. */
  ghost predicate Plurality(severity: string, lines: seq<Line>, id: string) {
    && VotesFor(lines, id, severity) > 0
    && forall s :: VotesFor(lines, id, s) <= VotesFor(lines, id, severity)
  }

  lemma {:induction false} ObserversPositive(lines: seq<Line>, id: string)
    ensures Observers(lines, id) > 0 <==> exists k :: 0 <= k < |lines| && IsOf(lines[k], id)
  {
    if lines != [] {
      var init := lines[..|lines| - 1];
      ObserversPositive(init, id);
      assert forall k :: 0 <= k < |init| ==> init[k] == lines[k];
    }
  }

  /** Votes are bounded by sightings, so a threat without sightings has no votes. */
  lemma {:induction false} VotesWithinObservers(lines: seq<Line>, id: string, severity: string)
    ensures VotesFor(lines, id, severity) <= Observers(lines, id)
  {
    if lines != [] {
      VotesWithinObservers(lines[..|lines| - 1], id, severity);
    }
  }

  /** `max_by_key` over a vote table, in whatever order the map is walked: the last maximum. */
  method MaxByVotes(votes: Votes) returns (best: Option<string>)
    ensures best.None? <==> votes == map[]
    ensures best.Some? ==> best.value in votes && forall s :: s in votes ==> votes[s] <= votes[best.value]
  {
    best := None;
    var rest := votes.Keys;
    while rest != {}
      invariant rest <= votes.Keys
      invariant best.None? ==> rest == votes.Keys
      invariant best.Some? ==> best.value in votes
                               && forall s :: s in votes && s !in rest ==> votes[s] <= votes[best.value]
      decreases rest
    {
      var s :| s in rest;
      rest := rest - {s};
      if best.None? || votes[best.value] <= votes[s] {
        best := Some(s);
      }
    }
  }

  /** The vote tables after a prefix of the log. */
  ghost predicate Tallies(votes: map<string, Votes>, lines: seq<Line>) {
    && (forall id :: id in votes <==> Observers(lines, id) > 0)
    && (forall id, s :: id in votes ==> (s in votes[id] <==> VotesFor(lines, id, s) > 0))
    && (forall id, s :: id in votes && s in votes[id] ==> votes[id][s] == VotesFor(lines, id, s))
  }

  ghost predicate Summaries(threats: map<string, Threat>, lines: seq<Line>, now: Instant) {
    && (forall id :: id in threats <==> Observers(lines, id) > 0)
    && (forall id :: id in threats ==> Summarizes(threats[id], lines, id, now))
  }

  /** The `and_modify` closure: a further sighting of a known threat. */
  function Modified(t: Threat, l: Line): Threat
    requires l.Sighting?
  {
    t.(totalIncidents := (t.totalIncidents + GetOr(l.count, 1)) % USIZE,
       observerCount := t.observerCount + 1,
       lastSeen := GetOr(l.timestamp, t.lastSeen))
  }

  /** The `or_insert_with` closure: the first sighting. */
  function Inserted(l: Line, now: Instant): Threat
    requires l.Sighting?
  {
    Threat(l.severity, GetOr(l.discoveredBy, "unknown"), GetOr(l.firstSeen, now), now, 1, GetOr(l.count, 1) % USIZE)
  }

  /** The single pass over the log. */
  method Scan(lines: seq<Line>, now: Instant) returns (threats: map<string, Threat>, votes: map<string, Votes>)
    ensures Tallies(votes, lines) && Summaries(threats, lines, now)
  {
    votes, threats := map[], map[];
    for i := 0 to |lines|
      invariant Tallies(votes, lines[..i])
      invariant Summaries(threats, lines[..i], now)
    {
      assert lines[..i + 1] == lines[..i] + [lines[i]];
      var l := lines[i];
      if l.Sighting? {
        TallyStep(votes, lines[..i], l);
        SummaryStep(threats, lines[..i], l, now);
        var tally := if l.threatId in votes then votes[l.threatId] else map[];
        votes := votes[l.threatId := tally[l.severity := (if l.severity in tally then tally[l.severity] else 0) + 1]];
        threats := threats[l.threatId := if l.threatId in threats then Modified(threats[l.threatId], l)
                                         else Inserted(l, now)];
      } else {
        SkippedStep(votes, threats, lines[..i], l, now);
      }
    }
    assert lines[..|lines|] == lines;
  }

  /** One pass over the log and one vote per threat, for every order in which the maps are walked. */
  method GetThreatRegistry(lines: seq<Line>, now: Instant) returns (threats: map<string, Threat>)
    ensures forall id :: id in threats <==> exists k :: 0 <= k < |lines| && IsOf(lines[k], id)
    ensures forall id :: id in threats ==> Summarizes(threats[id], lines, id, now)
                                           && Plurality(threats[id].severity, lines, id)
  {
    var votes;
    threats, votes := Scan(lines, now);
    var rest := votes.Keys;
    while rest != {}
      invariant rest <= votes.Keys
      invariant Summaries(threats, lines, now)
      invariant forall id :: id in threats && id !in rest ==> Plurality(threats[id].severity, lines, id)
      decreases rest
    {
      var id :| id in rest;
      rest := rest - {id};
      var best := MaxByVotes(votes[id]);
      Elected(votes, lines, id, best);
      threats := threats[id := threats[id].(severity := best.value)];
    }
    forall id
      ensures id in threats <==> exists k :: 0 <= k < |lines| && IsOf(lines[k], id)
    {
      ObserversPositive(lines, id);
    }
  }

  lemma Snoc(lines: seq<Line>, l: Line)
    ensures lines + [l] != []
    ensures (lines + [l])[..|lines + [l]| - 1] == lines && (lines + [l])[|lines + [l]| - 1] == l
  {
  }

  lemma SkippedStep(votes: map<string, Votes>, threats: map<string, Threat>, lines: seq<Line>, l: Line, now: Instant)
    requires l.Skipped? && Tallies(votes, lines) && Summaries(threats, lines, now)
    ensures Tallies(votes, lines + [l]) && Summaries(threats, lines + [l], now)
  {
    Snoc(lines, l);
    forall id
      ensures Observers(lines + [l], id) == Observers(lines, id)
      ensures forall s :: VotesFor(lines + [l], id, s) == VotesFor(lines, id, s)
    {
    }
    forall id | id in threats
      ensures Summarizes(threats[id], lines + [l], id, now)
    {
    }
  }

  lemma TallyStep(votes: map<string, Votes>, lines: seq<Line>, l: Line)
    requires Tallies(votes, lines) && l.Sighting?
    ensures var tally := if l.threatId in votes then votes[l.threatId] else map[];
            var count := if l.severity in tally then tally[l.severity] else 0;
            Tallies(votes[l.threatId := tally[l.severity := count + 1]], lines + [l])
  {
    Snoc(lines, l);
    var tally := if l.threatId in votes then votes[l.threatId] else map[];
    var votes' := votes[l.threatId := tally[l.severity := (if l.severity in tally then tally[l.severity] else 0) + 1]];
    forall id, s | id in votes'
      ensures s in votes'[id] <==> VotesFor(lines + [l], id, s) > 0
      ensures s in votes'[id] ==> votes'[id][s] == VotesFor(lines + [l], id, s)
    {
      VotesWithinObservers(lines, id, s);
    }
  }

  lemma ModifiedSummarizes(t: Threat, lines: seq<Line>, l: Line, now: Instant)
    requires l.Sighting? && Summarizes(t, lines, l.threatId, now)
    ensures Summarizes(Modified(t, l), lines + [l], l.threatId, now)
  {
    Snoc(lines, l);
    assert Incidents(lines + [l], l.threatId) == Incidents(lines, l.threatId) + GetOr(l.count, 1);
  }

  lemma InsertedSummarizes(lines: seq<Line>, l: Line, now: Instant)
    requires l.Sighting? && Observers(lines, l.threatId) == 0
    ensures Summarizes(Inserted(l, now), lines + [l], l.threatId, now)
  {
    Snoc(lines, l);
    NothingBefore(lines, l.threatId, now);
  }

  lemma OtherSummarizes(t: Threat, lines: seq<Line>, l: Line, id: string, now: Instant)
    requires l.Sighting? && l.threatId != id
    ensures Observers(lines + [l], id) == Observers(lines, id)
    ensures Summarizes(t, lines, id, now) ==> Summarizes(t, lines + [l], id, now)
  {
    Snoc(lines, l);
  }

  lemma SummaryStep(threats: map<string, Threat>, lines: seq<Line>, l: Line, now: Instant)
    requires Summaries(threats, lines, now) && l.Sighting?
    ensures Summaries(threats[l.threatId := if l.threatId in threats then Modified(threats[l.threatId], l)
                                            else Inserted(l, now)],
                      lines + [l], now)
  {
    var id0 := l.threatId;
    if id0 in threats {
      ModifiedSummarizes(threats[id0], lines, l, now);
    } else {
      InsertedSummarizes(lines, l, now);
    }
    forall id | id != id0
      ensures Observers(lines + [l], id) == Observers(lines, id)
      ensures id in threats ==> Summarizes(threats[id], lines + [l], id, now)
    {
      OtherSummarizes(if id in threats then threats[id] else Inserted(l, now), lines, l, id, now);
    }
  }

  lemma {:induction false} NothingBefore(lines: seq<Line>, id: string, now: Instant)
    requires Observers(lines, id) == 0
    ensures Incidents(lines, id) == 0 && LastSeen(lines, id, now) == now
  {
    if lines != [] {
      NothingBefore(lines[..|lines| - 1], id, now);
    }
  }

  lemma Elected(votes: map<string, Votes>, lines: seq<Line>, id: string, best: Option<string>)
    requires Tallies(votes, lines) && id in votes
    requires best.None? <==> votes[id] == map[]
    requires best.Some? ==> best.value in votes[id]
    requires best.Some? ==> forall s :: s in votes[id] ==> votes[id][s] <= votes[id][best.value]
    ensures best.Some? && Plurality(best.value, lines, id)
  {
    ObserversPositive(lines, id);
    var k :| 0 <= k < |lines| && IsOf(lines[k], id);
    SomeVote(lines, id, k);
    assert lines[k].severity in votes[id];
    forall s
      ensures VotesFor(lines, id, s) <= VotesFor(lines, id, best.value)
    {
      assert s in votes[id] <==> VotesFor(lines, id, s) > 0;
    }
  }

  lemma {:induction false} SomeVote(lines: seq<Line>, id: string, k: nat)
    requires k < |lines| && IsOf(lines[k], id)
    ensures VotesFor(lines, id, lines[k].severity) > 0
  {
    if k < |lines| - 1 {
      SomeVote(lines[..|lines| - 1], id, k);
    }
  }
}
