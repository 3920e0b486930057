/** At fixed capacity the bus is an append-only log with one cursor per organ. */
module BusLog {
  import opened BloodRing
  import opened BusReader
  import opened BusRuns

  /** `cursor[o]` counts the globules organ o has passed; everything before `floor` may be overwritten. */
  datatype Log = Log(acc: seq<Globule>, cursor: seq<nat>, floor: nat)

  ghost predicate ValidLog(l: Log) {
    && |l.cursor| == MAX_ORGANS
    && l.floor <= |l.acc| <= l.floor + BASE_CAPACITY - 1
    && forall i :: 0 <= i < |l.cursor| ==> l.floor <= l.cursor[i] <= |l.acc|
  }

  function Slot(position: nat): nat {
    position % BASE_CAPACITY
  }

  ghost predicate Represents(r: Ring, l: Log) {
    && ValidLog(l) && |r.blood| == BLOOD_VOLUME && |r.heads| == MAX_ORGANS
    && r.capacity == BASE_CAPACITY
    && r.systole == Slot(|l.acc|) && r.diastole == Slot(l.floor)
    && (forall i :: 0 <= i < MAX_ORGANS ==> r.heads[i] == Slot(l.cursor[i]))
    && (forall p :: l.floor <= p < |l.acc| ==> r.blood[Slot(p)] == l.acc[p])
  }

  // ----- slots ---------------------------------------------------------------

  lemma SlotNext(p: nat)
    ensures (Slot(p) + 1) % BASE_CAPACITY == Slot(p + 1) == Advance(Slot(p), BASE_CAPACITY)
  {
  }

  lemma SlotsApart(p: nat, q: nat)
    requires p <= q < p + BASE_CAPACITY
    ensures Slot(p) == Slot(q) <==> p == q
  {
  }

  lemma SlotLag(p: nat, q: nat)
    requires p <= q < p + BASE_CAPACITY
    ensures ((Slot(q) - Slot(p) + BASE_CAPACITY) % U32) % BASE_CAPACITY == q - p
  {
    var d := Slot(q) - Slot(p) + BASE_CAPACITY;
    assert 0 < d < 2 * BASE_CAPACITY;
    assert d == q - p || d == q - p + BASE_CAPACITY;
  }

  lemma FullIffLogFull(r: Ring, l: Log)
    requires Represents(r, l)
    ensures Full(r) <==> |l.acc| == l.floor + BASE_CAPACITY - 1
  {
    SlotNext(|l.acc|);
    if |l.acc| == l.floor + BASE_CAPACITY - 1 {
      assert Slot(|l.acc| + 1) == Slot(l.floor);
    } else {
      SlotsApart(l.floor, |l.acc| + 1);
    }
  }

  // ----- pump ----------------------------------------------------------------

  /** Room is free, or the eviction touches no organ: none has caught up with the write head and
      none still waits at the oldest slot. */
  predicate Harmless(r: Ring, g: Globule)
    requires r.capacity > 0
  {
    && g.color != White
    && (Full(r) && Priority(g) ==>
          forall i :: 0 <= i < |r.heads| ==> r.heads[i] != r.systole && r.heads[i] != r.diastole)
  }

  function Append(l: Log, g: Globule, id: nat, evicting: bool): Log {
    Log(l.acc + [g.(id := id)], l.cursor, if evicting then l.floor + 1 else l.floor)
  }

  lemma StoreRepresents(r: Ring, l: Log, g: Globule, r': Ring, cursor: seq<nat>, floor: nat)
    requires Represents(r, l) && g.color != White
    requires l.floor <= floor && ValidLog(Log(l.acc + [g.(id := r.nextId)], cursor, floor))
    requires r'.blood == r.blood[r.systole := g.(id := r.nextId)] && r'.systole == NextSystole(r)
    requires r'.capacity == r.capacity && r'.diastole == Slot(floor)
    requires |r'.heads| == MAX_ORGANS && forall i :: 0 <= i < MAX_ORGANS ==> r'.heads[i] == Slot(cursor[i])
    ensures Represents(r', Log(l.acc + [g.(id := r.nextId)], cursor, floor))
  {
    SlotNext(|l.acc|);
    var l' := Log(l.acc + [g.(id := r.nextId)], cursor, floor);
    forall p | l'.floor <= p < |l'.acc|
      ensures r'.blood[Slot(p)] == l'.acc[p]
    {
      if p < |l.acc| {
        SlotsApart(p, |l.acc|);
      }
    }
  }

  /** A harmless pump appends to the log, or changes nothing but the counters. */
  lemma PumpRefines(r: Ring, l: Log, g: Globule)
    requires Represents(r, l) && Harmless(r, g)
    ensures var (r', result) := Pump(r, g);
            if result == Pumped then Represents(r', Append(l, g, r.nextId, Full(r)))
            else Represents(r', l)
  {
    FullIffLogFull(r, l);
    var (r', result) := Pump(r, g);
    if result == Pumped {
      if Full(r) {
        SlotNext(l.floor);
        assert r'.heads == r.heads;
        forall i | 0 <= i < MAX_ORGANS
          ensures l.floor + 1 <= l.cursor[i]
        {
        }
        StoreRepresents(r, l, g, r', l.cursor, l.floor + 1);
      } else {
        StoreRepresents(r, l, g, r', l.cursor, l.floor);
      }
    } else if Full(r) && Priority(g) {
      assert false;
    }
  }

  /** On a full ring a yellow globule keeps the log and the organs' places in it if and only if
      no organ has caught up and none waits at the oldest slot. */
  lemma EvictionExact(r: Ring, l: Log, g: Globule)
    requires Represents(r, l) && Full(r) && g.color == Yellow
    ensures (exists floor: nat :: Represents(Pump(r, g).0, Log(l.acc + [g.(id := r.nextId)], l.cursor, floor)))
            <==> forall i :: 0 <= i < MAX_ORGANS ==> r.heads[i] != r.systole && r.heads[i] != r.diastole
  {
    FullIffLogFull(r, l);
    var r' := Pump(r, g).0;
    if forall i :: 0 <= i < MAX_ORGANS ==> r.heads[i] != r.systole && r.heads[i] != r.diastole {
      PumpRefines(r, l, g);
      assert Represents(r', Log(l.acc + [g.(id := r.nextId)], l.cursor, l.floor + 1));
    } else {
      var i :| 0 <= i < MAX_ORGANS && (r.heads[i] == r.systole || r.heads[i] == r.diastole);
      forall floor: nat
        ensures !Represents(r', Log(l.acc + [g.(id := r.nextId)], l.cursor, floor))
      {
        EvictionLosesPlace(r, l, g, i, floor);
      }
    }
  }

  lemma EvictionLosesPlace(r: Ring, l: Log, g: Globule, i: nat, floor: nat)
    requires Represents(r, l) && Full(r) && g.color == Yellow && i < MAX_ORGANS
    requires r.heads[i] == r.systole || r.heads[i] == r.diastole
    ensures !Represents(Pump(r, g).0, Log(l.acc + [g.(id := r.nextId)], l.cursor, floor))
  {
    FullIffLogFull(r, l);
    var r' := Pump(r, g).0;
    if r.heads[i] == r.systole {
      SlotsApart(l.cursor[i], |l.acc|);
      assert r'.heads[i] == (r.diastole + 1) % BASE_CAPACITY;
      SlotNext(l.floor);
      SlotsApart(l.floor + 1, |l.acc|);
    } else {
      SlotsApart(l.floor, l.cursor[i]);
    }
  }

  /** Where an eviction puts the organs: one that has caught up goes back to the oldest message kept, one
      that waits at the oldest slot jumps past the newest message. */
  function Displaced(l: Log): (cursor: seq<nat>)
    ensures |cursor| == |l.cursor|
  {
    seq(|l.cursor|, i requires 0 <= i < |l.cursor| => DisplacedCursor(l, l.cursor[i]))
  }

  function DisplacedCursor(l: Log, c: nat): nat {
    if c == |l.acc| then l.floor + 1 else if c == l.floor then |l.acc| + 1 else c
  }

  lemma EvictedHead(r: Ring, l: Log, g: Globule, i: nat)
    requires Represents(r, l) && Full(r) && g.color == Yellow && i < MAX_ORGANS
    ensures Pump(r, g).0.heads[i] == Slot(DisplacedCursor(l, l.cursor[i]))
  {
    FullIffLogFull(r, l);
    SlotsApart(l.cursor[i], |l.acc|);
    SlotsApart(l.floor, l.cursor[i]);
    SlotNext(l.floor);
    SlotNext(|l.acc|);
  }

  /** What an eviction always does to the log: the message is appended, the oldest one is given up, and
      the organs are displaced. */
  lemma EvictionDisplaces(r: Ring, l: Log, g: Globule)
    requires Represents(r, l) && Full(r) && g.color == Yellow
    ensures Pump(r, g).1 == Pumped
    ensures Represents(Pump(r, g).0, Log(l.acc + [g.(id := r.nextId)], Displaced(l), l.floor + 1))
  {
    FullIffLogFull(r, l);
    SlotNext(l.floor);
    forall i | 0 <= i < MAX_ORGANS
      ensures Pump(r, g).0.heads[i] == Slot(Displaced(l)[i])
    {
      EvictedHead(r, l, g, i);
    }
    StoreRepresents(r, l, g, Pump(r, g).0, Displaced(l), l.floor + 1);
  }

  // ----- absorb --------------------------------------------------------------

  lemma AbsorbOne(r: Ring, l: Log, cursor: nat, organ: Byte, max: int)
    requires Represents(r, l) && l.floor <= cursor < |l.acc| && max > 0
    ensures var g := l.acc[cursor];
            var (rest, head) := AbsorbFrom(r, Slot(cursor + 1), organ, if Concerns(g, organ) then max - 1 else max);
            AbsorbFrom(r, Slot(cursor), organ, max) == (Matching([g], organ) + rest, head)
  {
    SlotsApart(cursor, |l.acc|);
    SlotNext(cursor);
    MatchingOne(l.acc[cursor], organ);
    var rest := AbsorbFrom(r, Slot(cursor + 1), organ, max).0;
    assert [] + rest == rest;
  }

  /** Walking the ring is walking the log: the call hands out exactly the globules between the two
      cursor positions that concern the organ, and it stops early only when the buffer is full. */
  lemma {:induction false} AbsorbRefines(r: Ring, l: Log, cursor: nat, organ: Byte, max: int) returns (cursor': nat)
    requires Represents(r, l) && l.floor <= cursor <= |l.acc|
    ensures cursor <= cursor' <= |l.acc|
    ensures var (got, head) := AbsorbFrom(r, Slot(cursor), organ, max);
            && head == Slot(cursor')
            && got == Matching(l.acc[cursor..cursor'], organ)
            && (cursor' == |l.acc| || |got| == (if max < 0 then 0 else max))
    decreases |l.acc| - cursor
  {
    if cursor == |l.acc| || max <= 0 {
      cursor' := cursor;
      assert l.acc[cursor..cursor] == [];
    } else {
      var g := l.acc[cursor];
      AbsorbOne(r, l, cursor, organ, max);
      cursor' := AbsorbRefines(r, l, cursor + 1, organ, if Concerns(g, organ) then max - 1 else max);
      assert l.acc[cursor..cursor'] == [g] + l.acc[cursor + 1..cursor'];
      MatchingConcat([g], l.acc[cursor + 1..cursor'], organ);
      MatchingOne(g, organ);
    }
  }

  // ----- garbage collection --------------------------------------------------

  function MinCursor(cursor: seq<nat>, n: nat, start: nat): nat
    requires n <= |cursor|
  {
    if n == 0 then start
    else
      var best := MinCursor(cursor, n - 1, start);
      if cursor[n - 1] < best then cursor[n - 1] else best
  }

  lemma LagIs(r: Ring, l: Log, p: nat)
    requires Represents(r, l) && l.floor <= p <= |l.acc|
    ensures Lag(r, Slot(p)) == |l.acc| - p
  {
    SlotLag(p, |l.acc|);
  }

  lemma {:induction false} SlowestIsMin(r: Ring, l: Log, n: nat)
    requires Represents(r, l) && n <= MAX_ORGANS
    ensures var min := MinCursor(l.cursor, n, |l.acc|);
            && l.floor <= min <= |l.acc| && Slowest(r, n) == Slot(min)
            && forall i :: 0 <= i < n ==> min <= l.cursor[i]
  {
    if n > 0 {
      SlowestIsMin(r, l, n - 1);
      LagIs(r, l, l.cursor[n - 1]);
      LagIs(r, l, MinCursor(l.cursor, n - 1, |l.acc|));
    }
  }

  /** Collection frees exactly what every organ has passed. */
  lemma GcRefines(r: Ring, l: Log)
    requires Represents(r, l)
    ensures Represents(Gc(r), l.(floor := MinCursor(l.cursor, MAX_ORGANS, |l.acc|)))
  {
    SlowestIsMin(r, l, MAX_ORGANS);
  }

  /** The health report counts the globules that are not yet collected. */
  lemma PendingIsUncollected(r: Ring, l: Log)
    requires Represents(r, l)
    ensures Pending(r) == |l.acc| - l.floor
  {
    SlotLag(l.floor, |l.acc|);
  }

  // ----- whole runs ----------------------------------------------------------

  /** The history agrees with a log that the ring represents. */
  ghost predicate Delivered(w: World, l: Log) {
    && Represents(w.ring, l) && l.acc == w.accepted && |w.received| == MAX_ORGANS
    && forall o :: 0 <= o < MAX_ORGANS ==> w.received[o] == Matching(w.accepted[..l.cursor[o]], o)
  }

  predicate Safe(r: Ring, op: Op)
    requires r.capacity > 0
  {
    op.PumpOp? ==> Harmless(r, op.g)
  }

  lemma PumpDelivers(w: World, l: Log, op: Op) returns (l': Log)
    requires ValidWorld(w) && Delivered(w, l) && op.PumpOp? && Safe(w.ring, op)
    ensures Delivered(Step(w, op), l')
  {
    PumpRefines(w.ring, l, op.g);
    if Pump(w.ring, op.g).1 == Pumped {
      l' := Append(l, op.g, w.ring.nextId, Full(w.ring));
      forall o | 0 <= o < MAX_ORGANS
        ensures l'.acc[..l.cursor[o]] == l.acc[..l.cursor[o]]
      {
      }
    } else {
      l' := l;
    }
  }

  lemma AbsorbDelivers(w: World, l: Log, op: Op) returns (l': Log)
    requires ValidWorld(w) && Delivered(w, l) && op.AbsorbOp? && Enabled(w.ring, op)
    ensures Delivered(Step(w, op), l')
  {
    hide AbsorbFrom, Matching;
    if op.organ >= MAX_ORGANS {
      l' := l;
    } else {
      var c := l.cursor[op.organ];
      var c' := AbsorbRefines(w.ring, l, c, op.organ, op.max);
      l' := l.(cursor := l.cursor[op.organ := c']);
      assert l.acc[..c'] == l.acc[..c] + l.acc[c..c'];
      MatchingConcat(l.acc[..c], l.acc[c..c'], op.organ);
    }
  }

  lemma StepDelivers(w: World, l: Log, op: Op) returns (l': Log)
    requires ValidWorld(w) && Delivered(w, l) && Safe(w.ring, op) && Enabled(w.ring, op)
    ensures Delivered(Step(w, op), l')
  {
    match op {
      case PumpOp(_) => l' := PumpDelivers(w, l, op);
      case AbsorbOp(_, _) => l' := AbsorbDelivers(w, l, op);
      case GcOp =>
        GcRefines(w.ring, l);
        l' := l.(floor := MinCursor(l.cursor, MAX_ORGANS, |l.acc|));
    }
  }

  /** At fixed capacity every read loop ends. */
  lemma AlwaysEnabled(r: Ring, l: Log, op: Op)
    requires Represents(r, l)
    ensures Enabled(r, op)
  {
  }

  /** In every run of safe operations, for every interleaving of pumps, collections and reads of any
      size: each organ has been handed exactly the accepted globules that are broadcast or addressed
      to it, in order, up to its cursor, without loss or repetition; an organ whose read head has
      met the write head has been handed all of them. */
  lemma {:induction false} RunDelivers(ws: seq<World>, ops: seq<Op>, k: nat) returns (l: Log)
    requires Runs(ws, ops) && k <= |ops|
    requires forall j :: 0 <= j < |ops| && ws[j].ring.capacity > 0 ==> Safe(ws[j].ring, ops[j])
    ensures Delivered(ws[k], l)
    ensures forall o :: 0 <= o < MAX_ORGANS && ws[k].ring.heads[o] == ws[k].ring.systole
                        ==> ws[k].received[o] == Matching(ws[k].accepted, o)
  {
    if k == 0 {
      l := Log([], seq(MAX_ORGANS, _ => 0), 0);
    } else {
      var prev := RunDelivers(ws, ops, k - 1);
      RunBounds(ws, ops, k - 1);
      assert ValidWorld(ws[k - 1]) && Safe(ws[k - 1].ring, ops[k - 1]);
      l := StepDelivers(ws[k - 1], prev, ops[k - 1]);
    }
    forall o | 0 <= o < MAX_ORGANS && ws[k].ring.heads[o] == ws[k].ring.systole
      ensures ws[k].received[o] == Matching(ws[k].accepted, o)
    {
      SlotsApart(l.cursor[o], |l.acc|);
      assert l.acc[..|l.acc|] == l.acc;
    }
  }

  // ----- evictions -----------------------------------------------------------

  /** In every run without a white globule, evictions included, the ring is a log of the accepted messages. */
  lemma {:induction false} RunRepresents(ws: seq<World>, ops: seq<Op>, k: nat) returns (l: Log)
    requires Runs(ws, ops) && k <= |ops|
    requires forall j :: 0 <= j < |ops| && ops[j].PumpOp? ==> ops[j].g.color != White
    ensures Represents(ws[k].ring, l) && l.acc == ws[k].accepted
  {
    if k == 0 {
      l := Log([], seq(MAX_ORGANS, _ => 0), 0);
    } else {
      var prev := RunRepresents(ws, ops, k - 1);
      RunBounds(ws, ops, k - 1);
      assert ValidWorld(ws[k - 1]) && ws[k] == Step(ws[k - 1], ops[k - 1]);
      l := StepRepresents(ws[k - 1], prev, ops[k - 1]);
    }
  }

  lemma StepRepresents(w: World, l: Log, op: Op) returns (l': Log)
    requires ValidWorld(w) && Represents(w.ring, l) && l.acc == w.accepted && Enabled(w.ring, op)
    requires op.PumpOp? ==> op.g.color != White
    ensures Represents(Step(w, op).ring, l') && l'.acc == Step(w, op).accepted
  {
    match op {
      case PumpOp(g) =>
        if Full(w.ring) && g.color == Yellow {
          EvictionDisplaces(w.ring, l, g);
          l' := Log(l.acc + [g.(id := w.ring.nextId)], Displaced(l), l.floor + 1);
        } else {
          PumpRefines(w.ring, l, g);
          l' := if Accepts(w.ring, op) then Append(l, g, w.ring.nextId, Full(w.ring)) else l;
        }
      case AbsorbOp(organ, max) =>
        l' := AbsorbRepresents(w.ring, l, organ, max);
      case GcOp =>
        GcRefines(w.ring, l);
        l' := l.(floor := MinCursor(l.cursor, MAX_ORGANS, |l.acc|));
    }
  }

  lemma AbsorbRepresents(r: Ring, l: Log, organ: Byte, max: int) returns (l': Log)
    requires Represents(r, l)
    ensures Represents(Absorb(r, organ, max).0, l') && l'.acc == l.acc
  {
    hide AbsorbFrom, Matching;
    l' := l;
    if organ < MAX_ORGANS {
      var c' := AbsorbRefines(r, l, l.cursor[organ], organ, max);
      l' := l.(cursor := l.cursor[organ := c']);
    }
  }

  /** An organ that waits at the oldest slot of a full ring has 1023 unread messages; an eviction takes its
      read head to the write head, so that its next call, whatever its buffer, is handed nothing. */
  lemma EvictionLosesUnread(r: Ring, l: Log, g: Globule, organ: Byte, max: int)
    requires Represents(r, l) && Full(r) && g.color == Yellow
    requires organ < MAX_ORGANS && r.heads[organ] == r.diastole
    ensures |l.acc| - l.cursor[organ] == 1023
    ensures Represents(Pump(r, g).0, Log(l.acc + [g.(id := r.nextId)], Displaced(l), l.floor + 1))
    ensures Absorb(Pump(r, g).0, organ, max) == (Pump(r, g).0, [])
  {
    FullIffLogFull(r, l);
    EvictionDisplaces(r, l, g);
    SlotsApart(l.floor, l.cursor[organ]);
    var r' := Pump(r, g).0;
    assert r'.heads[organ] == r'.systole;
    assert r'.heads[organ := r'.heads[organ]] == r'.heads;
  }

  /** An organ that has read everything is handed the messages that an eviction leaves in the ring a second
      time, before the new one. */
  lemma EvictionReadsAgain(r: Ring, l: Log, g: Globule, organ: Byte, max: int)
    requires Represents(r, l) && Full(r) && g.color == Yellow
    requires organ < MAX_ORGANS && r.heads[organ] == r.systole && max >= BASE_CAPACITY
    ensures l.cursor[organ] == |l.acc|
    ensures Represents(Pump(r, g).0, Log(l.acc + [g.(id := r.nextId)], Displaced(l), l.floor + 1))
    ensures Absorb(Pump(r, g).0, organ, max).1
            == Matching(l.acc[l.floor + 1..], organ) + Matching([g.(id := r.nextId)], organ)
  {
    hide AbsorbFrom, Matching;
    FullIffLogFull(r, l);
    EvictionDisplaces(r, l, g);
    SlotsApart(l.cursor[organ], |l.acc|);
    var l' := Log(l.acc + [g.(id := r.nextId)], Displaced(l), l.floor + 1);
    var c := AbsorbRefines(Pump(r, g).0, l', l.floor + 1, organ, max);
    MatchingShorter(l'.acc[l.floor + 1..c], organ);
    assert l'.acc[l.floor + 1..] == l.acc[l.floor + 1..] + [g.(id := r.nextId)];
    assert l'.acc[l.floor + 1..|l'.acc|] == l'.acc[l.floor + 1..];
    MatchingConcat(l.acc[l.floor + 1..], [g.(id := r.nextId)], organ);
  }

  /** From boot, pumps fill the ring. */
  lemma {:induction false} FillUp(blood: seq<Globule>, red: Globule, n: nat) returns (acc: seq<Globule>)
    requires |blood| == BLOOD_VOLUME && red.color == Red && !Barred(red) && n <= 1023
    ensures Bounded(Initial(blood))
    ensures |acc| == n && forall p :: 0 <= p < n ==> Numbered(acc[p], red)
    ensures Represents(PumpAll(Initial(blood), red, n), Log(acc, seq(MAX_ORGANS, _ => 0), 0))
  {
    if n == 0 {
      acc := [];
    } else {
      var before := FillUp(blood, red, n - 1);
      var r := PumpAll(Initial(blood), red, n - 1);
      var l := Log(before, seq(MAX_ORGANS, _ => 0), 0);
      FullIffLogFull(r, l);
      PumpRefines(r, l, red);
      acc := before + [red.(id := r.nextId)];
    }
  }

  lemma {:induction false} AllMatching(s: seq<Globule>, organ: Byte)
    requires forall p :: 0 <= p < |s| ==> Concerns(s[p], organ)
    ensures Matching(s, organ) == s
  {
    if s != [] {
      AllMatching(s[..|s| - 1], organ);
    }
  }

  /** A run that loses messages: 1023 of them from boot, all for an organ that could read every one, and
      one yellow globule; after it no organ is handed anything. */
  lemma BacklogLost(blood: seq<Globule>, red: Globule, yellow: Globule, organ: Byte, max: int)
    returns (acc: seq<Globule>)
    requires |blood| == BLOOD_VOLUME && red.color == Red && !Barred(red) && yellow.color == Yellow
    requires organ < MAX_ORGANS && Concerns(red, organ)
    ensures Bounded(Initial(blood)) && |acc| == 1023
    ensures var r := PumpAll(Initial(blood), red, 1023);
            && Represents(r, Log(acc, seq(MAX_ORGANS, _ => 0), 0))
            && Absorb(r, organ, 1023).1 == acc
            && (forall o, n :: 0 <= o < MAX_ORGANS ==> Enabled(Pump(r, yellow).0, AbsorbOp(o, n)))
            && Absorb(Pump(r, yellow).0, organ, max).1 == []
  {
    acc := FillUp(blood, red, 1023);
    var r, l := PumpAll(Initial(blood), red, 1023), Log(acc, seq(MAX_ORGANS, _ => 0), 0);
    hide PumpAll;
    FullIffLogFull(r, l);
    EvictionLosesUnread(r, l, yellow, organ, max);
    hide AbsorbFrom, Matching;
    var c := AbsorbRefines(r, l, 0, organ, 1023);
    AllMatching(acc[0..c], organ);
    assert acc[0..1023] == acc;
  }
}
