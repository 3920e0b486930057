/** What the words of the threat summary mean: counts are sizes of sets of lines, the first sighting is the
    earliest, the last one the latest. */
module ThreatLaws {
  import opened Wrappers
  import opened Gossip
  import opened ThreatRegistry

  /** The lines that sight the threat. */
  ghost function Sightings(lines: seq<Line>, id: string): set<int> {
    set k | 0 <= k < |lines| && lines[k].Sighting? && lines[k].threatId == id
  }

  /** Those of them that give it a severity. */
  ghost function Ballots(lines: seq<Line>, id: string, severity: string): set<int> {
    set k | k in Sightings(lines, id) && lines[k].severity == severity
  }

  lemma NextSighting(lines: seq<Line>, id: string, severity: string)
    requires lines != []
    ensures var n := |lines| - 1;
            var before, votes := Sightings(lines[..n], id), Ballots(lines[..n], id, severity);
            && n !in before && n !in votes
            && Sightings(lines, id) == (if IsOf(lines[n], id) then before + {n} else before)
            && Ballots(lines, id, severity)
               == if IsOf(lines[n], id) && lines[n].severity == severity then votes + {n} else votes
  {
    assert forall k :: 0 <= k < |lines| - 1 ==> lines[..|lines| - 1][k] == lines[k];
  }

  lemma {:induction false} ObserversAreLines(lines: seq<Line>, id: string)
    ensures Observers(lines, id) == |Sightings(lines, id)|
  {
    if lines != [] {
      NextSighting(lines, id, "");
      ObserversAreLines(lines[..|lines| - 1], id);
      hide Sightings;
    }
  }

  lemma {:induction false} VotesAreLines(lines: seq<Line>, id: string, severity: string)
    ensures VotesFor(lines, id, severity) == |Ballots(lines, id, severity)|
  {
    if lines != [] {
      NextSighting(lines, id, severity);
      VotesAreLines(lines[..|lines| - 1], id, severity);
      hide Sightings, Ballots;
    }
  }

  /** A summary holds the number of incidents as a 64-bit count, and the number of sighting lines. */
  lemma SummaryCounts(t: Threat, lines: seq<Line>, id: string, now: Instant)
    requires Summarizes(t, lines, id, now)
    ensures t.totalIncidents == Incidents(lines, id) % 0x1_0000_0000_0000_0000
    ensures t.observerCount == |Sightings(lines, id)|
  {
    ObserversAreLines(lines, id);
  }

  /** Incidents add up over any division of the log. */
  lemma {:induction false} IncidentsAdd(a: seq<Line>, b: seq<Line>, id: string)
    ensures Incidents(a + b, id) == Incidents(a, id) + Incidents(b, id)
  {
    if b == [] {
      assert a + b == a;
    } else {
      assert (a + b)[..|a + b| - 1] == a + b[..|b| - 1];
      IncidentsAdd(a, b[..|b| - 1], id);
    }
  }

  /** A sighting counts for what it says, or for one if it says nothing; any other line counts for nothing. */
  lemma OneLineCounts(l: Line, id: string)
    ensures Incidents([l], id)
            == if l.Sighting? && l.threatId == id then (if l.count.Some? then l.count.value else 1) else 0
  {
    assert [l][..0] == [];
  }

  /** The first sighting is the earliest: no line before it is of that threat. */
  lemma {:induction false} FirstIsEarliest(lines: seq<Line>, id: string) returns (k: nat)
    requires First(lines, id).Some?
    ensures k < |lines| && lines[k] == First(lines, id).value
    ensures lines[k].Sighting? && lines[k].threatId == id
    ensures forall j :: 0 <= j < k ==> !(lines[j].Sighting? && lines[j].threatId == id)
  {
    var init := lines[..|lines| - 1];
    if First(init, id).Some? {
      k := FirstIsEarliest(init, id);
      assert forall j :: 0 <= j < |init| ==> init[j] == lines[j];
    } else {
      k := |lines| - 1;
      ObserversPositive(init, id);
      assert forall j :: 0 <= j < |init| ==> init[j] == lines[j];
    }
  }

  /** Line k is a sighting with a readable time and not the first one. */
  predicate Dates(lines: seq<Line>, id: string, k: int) {
    && 0 <= k < |lines| && lines[k].Sighting? && lines[k].threatId == id && lines[k].timestamp.Some?
    && exists j :: 0 <= j < k && lines[j].Sighting? && lines[j].threatId == id
  }

  lemma DatesBefore(lines: seq<Line>, id: string, k: int)
    requires lines != [] && k < |lines| - 1
    ensures Dates(lines, id, k) <==> Dates(lines[..|lines| - 1], id, k)
  {
    assert forall j :: 0 <= j < |lines| - 1 ==> lines[..|lines| - 1][j] == lines[j];
  }

  lemma DatesLast(lines: seq<Line>, id: string)
    requires lines != []
    ensures var n := |lines| - 1;
            Dates(lines, id, n) <==> IsOf(lines[n], id) && Observers(lines[..n], id) > 0 && lines[n].timestamp.Some?
  {
    ObserversPositive(lines[..|lines| - 1], id);
    assert forall j :: 0 <= j < |lines| - 1 ==> lines[..|lines| - 1][j] == lines[j];
  }

  /** The last sighting is dated by the latest such line, and by the time of the scan if there is none. */
  lemma {:induction false} LastSeenIsLatest(lines: seq<Line>, id: string, now: Instant)
    ensures (forall k :: !Dates(lines, id, k)) ==> LastSeen(lines, id, now) == now
    ensures forall k :: Dates(lines, id, k) && (forall j :: k < j < |lines| ==> !Dates(lines, id, j))
                        ==> LastSeen(lines, id, now) == lines[k].timestamp.value
  {
    if lines != [] {
      var init, n := lines[..|lines| - 1], |lines| - 1;
      LastSeenIsLatest(init, id, now);
      DatesLast(lines, id);
      forall k | k < n
        ensures Dates(lines, id, k) <==> Dates(init, id, k)
      {
        DatesBefore(lines, id, k);
      }
      DatesInRange(lines, id);
      hide Dates;
    }
  }

  lemma DatesInRange(lines: seq<Line>, id: string)
    ensures forall k :: Dates(lines, id, k) ==> 0 <= k < |lines| && lines[k].Sighting? && lines[k].timestamp.Some?
  {
  }
}
