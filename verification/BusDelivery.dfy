/** Who gets which message, in the fields of the messages themselves. */
module BusDelivery {
  import opened BloodRing
  import opened BusReader
  import opened BusRuns
  import opened BusLog

  /** `index` says where in `sent` each received message stands: it picks, in order, exactly the messages that
      are broadcast (0xFF) or addressed to the organ. */
  ghost predicate Picks(received: seq<Globule>, sent: seq<Globule>, organ: int, index: seq<nat>) {
    && |index| == |received|
    && (forall i :: 0 <= i < |index| ==> index[i] < |sent| && received[i] == sent[index[i]])
    && (forall i, j :: 0 <= i < j < |index| ==> index[i] < index[j])
    && (forall p :: 0 <= p < |sent| ==> (p in index <==> sent[p].target == 0xFF || sent[p].target == organ))
  }

  lemma PicksNext(received: seq<Globule>, sent: seq<Globule>, organ: int, index: seq<nat>, g: Globule)
    requires Picks(received, sent, organ, index)
    ensures if g.target == 0xFF || g.target == organ then Picks(received + [g], sent + [g], organ, index + [|sent|])
            else Picks(received, sent + [g], organ, index)
  {
    assert forall p :: 0 <= p < |sent| ==> (sent + [g])[p] == sent[p];
    assert |sent| !in index;
    assert forall p :: p in index + [|sent|] <==> p in index || p == |sent|;
  }

  lemma {:induction false} MatchingPicks(s: seq<Globule>, organ: Byte) returns (index: seq<nat>)
    ensures Picks(Matching(s, organ), s, organ, index)
  {
    hide Picks;
    if s == [] {
      index := [];
      PicksNothing(organ);
    } else {
      var init, g := s[..|s| - 1], s[|s| - 1];
      var before := MatchingPicks(init, organ);
      PicksNext(Matching(init, organ), init, organ, before, g);
      assert init + [g] == s && Matching(init, organ) + [] == Matching(init, organ);
      index := if g.target == 0xFF || g.target == organ then before + [|init|] else before;
    }
  }

  lemma PicksNothing(organ: int)
    ensures Picks([], [], organ, [])
  {
  }

  /** One call: it hands out exactly the messages between the two cursor positions that are broadcast or
      addressed to the organ. */
  lemma AbsorbPicks(r: Ring, l: Log, organ: Byte, max: int) returns (cursor': nat, index: seq<nat>)
    requires Represents(r, l) && organ < MAX_ORGANS
    ensures l.cursor[organ] <= cursor' <= |l.acc|
    ensures Picks(Absorb(r, organ, max).1, l.acc[l.cursor[organ]..cursor'], organ, index)
    ensures cursor' == |l.acc| || |index| == if max < 0 then 0 else max
  {
    cursor' := AbsorbRefines(r, l, l.cursor[organ], organ, max);
    hide AbsorbFrom;
    index := MatchingPicks(l.acc[l.cursor[organ]..cursor'], organ);
  }

  /** In every safe run, an organ whose read head has met the write head has received exactly the accepted
      messages that are broadcast or addressed to it, in order. */
  lemma CaughtUpPicks(ws: seq<World>, ops: seq<Op>, k: nat, organ: Byte) returns (index: seq<nat>)
    requires Runs(ws, ops) && k <= |ops| && organ < MAX_ORGANS
    requires forall j :: 0 <= j < |ops| && ws[j].ring.capacity > 0 ==> Safe(ws[j].ring, ops[j])
    requires |ws[k].ring.heads| == |ws[k].received| == MAX_ORGANS
    requires ws[k].ring.heads[organ] == ws[k].ring.systole
    ensures Picks(ws[k].received[organ], ws[k].accepted, organ, index)
  {
    var _ := RunDelivers(ws, ops, k);
    index := MatchingPicks(ws[k].accepted, organ);
  }

  /** Before it wraps around, a number belongs to one message. */
  lemma NumbersDiffer(a: nat, b: nat)
    requires a < U32 && b < U32 && (1 + a) % U32 == (1 + b) % U32
    ensures a == b
  {
  }

  /** Every broadcast is received exactly once by every organ that has caught up, as long as fewer than 2^32
      messages have been numbered. */
  lemma BroadcastReachesAll(ws: seq<World>, ops: seq<Op>, k: nat, organ: Byte, p: nat) returns (at: nat)
    requires Runs(ws, ops) && k <= |ops| && organ < MAX_ORGANS
    requires forall j :: 0 <= j < |ops| && ws[j].ring.capacity > 0 ==> Safe(ws[j].ring, ops[j])
    requires |ws[k].ring.heads| == |ws[k].received| == MAX_ORGANS
    requires ws[k].ring.heads[organ] == ws[k].ring.systole
    requires p < |ws[k].accepted| <= U32 && ws[k].accepted[p].target == 0xFF
    ensures at < |ws[k].received[organ]| && ws[k].received[organ][at] == ws[k].accepted[p]
    ensures forall i :: 0 <= i < |ws[k].received[organ]| && i != at
                        ==> ws[k].received[organ][i].id != ws[k].accepted[p].id
  {
    var index := CaughtUpPicks(ws, ops, k, organ);
    RunBounds(ws, ops, k);
    var w := ws[k];
    at :| 0 <= at < |index| && index[at] == p;
    forall i | 0 <= i < |w.received[organ]| && i != at
      ensures w.received[organ][i].id != w.accepted[p].id
    {
      assert index[i] != p;
      if w.received[organ][i].id == w.accepted[p].id {
        NumbersDiffer(index[i], p);
      }
    }
  }

  /** Which pumps are refused, and what the others store. A full ring refuses all but white and yellow messages;
      what gets past that is filtered exactly if it is red, addressed to the cortex (0) and not sent by the
      sensory organ (4). */
  lemma PumpOutcome(r: Ring, g: Globule)
    requires Bounded(r)
    ensures var (r', result) := Pump(r, g);
            var full := (r.systole + 1) % r.capacity == r.diastole;
            && (result == Congested <==> full && g.color != White && g.color != Yellow)
            && (result == Filtered <==> result != Congested && g.target == 0 && g.color == Red && g.source != 4)
            && (result != Pumped ==> r'.blood == r.blood && r'.systole == r.systole && r'.nextId == r.nextId)
            && (result == Pumped ==>
                  && r'.blood == r.blood[r.systole := g.(id := r.nextId)]
                  && r'.systole == (r.systole + 1) % r.capacity)
  {
  }

  /** The capacity: 2048 after a white message, and otherwise one less with every message stored, down to 1024. */
  lemma {:induction false} CapacityContracts(r: Ring, gs: seq<Globule>)
    requires Bounded(r) && forall i :: 0 <= i < |gs| ==> gs[i].color != White
    ensures Bounded(PumpEach(r, gs).0)
    ensures var (r', stored) := PumpEach(r, gs);
            r'.capacity == if r.capacity - stored < 1024 then 1024 else r.capacity - stored
    ensures forall g: Globule :: g.color == White && Pump(r, g).1 == Pumped ==> Pump(r, g).0.capacity == 2048
  {
    if gs != [] {
      CapacityContracts(r, gs[..|gs| - 1]);
    }
  }

  /** Pumping one message after the other, and how many of them were stored. */
  function PumpEach(r: Ring, gs: seq<Globule>): (result: (Ring, nat))
    requires Bounded(r)
    ensures Bounded(result.0)
  {
    if gs == [] then (r, 0)
    else
      var (before, stored) := PumpEach(r, gs[..|gs| - 1]);
      PumpBounded(before, gs[|gs| - 1]);
      var (after, outcome) := Pump(before, gs[|gs| - 1]);
      (after, if outcome == Pumped then stored + 1 else stored)
  }
}
