/** The read loop of the bus taken by itself: exactly when it ends, that it computes the recursive
    walk, and what it hands out when the write head is out of its reach. */
module BusReader {
  import opened BloodRing

  /** The loop's variables: the read head and what was handed out so far. */
  datatype Reader = Reader(head: nat, got: seq<Globule>)

  /** The condition of the loop. */
  predicate Running(r: Ring, max: int, s: Reader) {
    s.head != r.systole && |s.got| < max
  }

  /** The body of the loop. */
  function Turn(r: Ring, organ: Byte, s: Reader): Reader
    requires 0 < r.capacity && s.head < |r.blood|
  {
    var g := r.blood[s.head];
    Reader(Advance(s.head, r.capacity), if Concerns(g, organ) then s.got + [g] else s.got)
  }

  /** The variables after n rounds, or fewer if the loop has stopped by then. */
  function Rounds(r: Ring, organ: Byte, max: int, s: Reader, n: nat): Reader
    requires 0 < r.capacity <= |r.blood| && s.head < |r.blood|
    decreases n
  {
    if n == 0 || !Running(r, max, s) then s
    else
      AdvanceIs(s.head, r.capacity);
      Rounds(r, organ, max, Turn(r, organ, s), n - 1)
  }

  lemma RoundsShift(r: Ring, organ: Byte, max: int, s: Reader, n: nat)
    requires 0 < r.capacity <= |r.blood| && s.head < |r.blood| && Running(r, max, s)
    ensures Turn(r, organ, s).head < |r.blood|
    ensures Rounds(r, organ, max, s, n + 1) == Rounds(r, organ, max, Turn(r, organ, s), n)
  {
    AdvanceIs(s.head, r.capacity);
  }

  /** One round of the loop is one step of the recursive walk. */
  lemma AbsorbTurn(r: Ring, organ: Byte, max: int, s: Reader)
    requires 0 < r.capacity <= |r.blood| && s.head < |r.blood|
    requires Ends(r, s.head, organ, max - |s.got|) && Running(r, max, s)
    ensures var t := Turn(r, organ, s);
            && t.head < |r.blood| && Ends(r, t.head, organ, max - |t.got|)
            && Quota(r, t.head, max - |t.got|) <= Quota(r, s.head, max - |s.got|)
            && (Quota(r, t.head, max - |t.got|) == Quota(r, s.head, max - |s.got|)
                ==> Gap(r, t.head, organ) < Gap(r, s.head, organ))
            && s.got + AbsorbFrom(r, s.head, organ, max - |s.got|).0
               == t.got + AbsorbFrom(r, t.head, organ, max - |t.got|).0
            && AbsorbFrom(r, s.head, organ, max - |s.got|).1 == AbsorbFrom(r, t.head, organ, max - |t.got|).1
  {
    hide Ends, Quota, Gap;
    ReadCloser(r, s.head, organ, max - |s.got|);
    var t := Turn(r, organ, s);
    var rest := AbsorbFrom(r, t.head, organ, max - |t.got|).0;
    assert (s.got + [r.blood[s.head]]) + rest == s.got + ([r.blood[s.head]] + rest);
  }

  /** A loop that satisfies Ends stops, with what the recursive walk returns. */
  lemma {:induction false} LoopStops(r: Ring, organ: Byte, max: int, s: Reader) returns (n: nat)
    requires 0 < r.capacity <= |r.blood| && s.head < |r.blood|
    requires Ends(r, s.head, organ, max - |s.got|)
    ensures !Running(r, max, Rounds(r, organ, max, s, n))
    ensures var (rest, end) := AbsorbFrom(r, s.head, organ, max - |s.got|);
            Rounds(r, organ, max, s, n) == Reader(end, s.got + rest)
    decreases Quota(r, s.head, max - |s.got|), Gap(r, s.head, organ)
  {
    hide Turn, Quota, Gap, Ends;
    if !Running(r, max, s) {
      n := 0;
      assert s.got + [] == s.got;
    } else {
      AbsorbTurn(r, organ, max, s);
      var m := LoopStops(r, organ, max, Turn(r, organ, s));
      n := m + 1;
      RoundsShift(r, organ, max, s, m);
    }
  }

  /** A loop that does not satisfy Ends never stops. */
  lemma {:induction false} LoopRuns(r: Ring, organ: Byte, max: int, s: Reader, n: nat)
    requires 0 < r.capacity <= |r.blood| && s.head < |r.blood|
    requires !Ends(r, s.head, organ, max - |s.got|)
    ensures Running(r, max, Rounds(r, organ, max, s, n))
    decreases n
  {
    if n > 0 {
      AdvanceIs(s.head, r.capacity);
      LoopRuns(r, organ, max, Turn(r, organ, s), n - 1);
    }
  }

  /** The read loop ends if and only if it can meet the write head, or has no room for a globule, or
      some slot inside the capacity concerns the organ, or the slot it starts at lies outside the
      capacity, concerns the organ and fills the buffer. */
  lemma LoopEndsExact(r: Ring, head: nat, organ: Byte, max: int)
    requires 0 < r.capacity <= |r.blood| && head < |r.blood|
    ensures (exists n: nat :: !Running(r, max, Rounds(r, organ, max, Reader(head, []), n)))
            <==> (|| Meets(head, r.systole, r.capacity)
                  || max <= 0
                  || (exists p :: 0 <= p < r.capacity && Concerns(r.blood[p], organ))
                  || (head >= r.capacity && max == 1 && Concerns(r.blood[head], organ)))
  {
    var s := Reader(head, []);
    if Ends(r, head, organ, max) {
      var n := LoopStops(r, organ, max, s);
    } else {
      forall n: nat
        ensures Running(r, max, Rounds(r, organ, max, s, n))
      {
        LoopRuns(r, organ, max, s, n);
      }
    }
  }

  // ----- reading past an unreachable write head ------------------------------

  /** The globules of some consecutive slots that concern the organ. */
  function Matching(s: seq<Globule>, organ: Byte): seq<Globule> {
    if s == [] then []
    else
      var last := s[|s| - 1];
      Matching(s[..|s| - 1], organ) + if Concerns(last, organ) then [last] else []
  }

  lemma {:induction false} MatchingConcat(a: seq<Globule>, b: seq<Globule>, organ: Byte)
    ensures Matching(a + b, organ) == Matching(a, organ) + Matching(b, organ)
  {
    if b == [] {
      assert a + b == a;
    } else {
      assert (a + b)[..|a + b| - 1] == a + b[..|b| - 1];
      MatchingConcat(a, b[..|b| - 1], organ);
    }
  }

  lemma MatchingOne(g: Globule, organ: Byte)
    ensures Matching([g], organ) == if Concerns(g, organ) then [g] else []
  {
    assert [g][..0] == [];
  }

  lemma {:induction false} MatchingShorter(s: seq<Globule>, organ: Byte)
    ensures |Matching(s, organ)| <= |s|
  {
    if s != [] {
      MatchingShorter(s[..|s| - 1], organ);
    }
  }

  /** What one lap around the capacity, starting at `head`, hands out. */
  function Lap(r: Ring, head: nat, organ: Byte): seq<Globule>
    requires head < r.capacity <= |r.blood|
  {
    Matching(r.blood[head..r.capacity], organ) + Matching(r.blood[..head], organ)
  }

  /** The state of the ring in which the walk never meets the write head. */
  predicate Stranded(r: Ring, head: nat, organ: Byte) {
    0 < r.capacity <= |r.blood| && head < r.capacity <= r.systole && Addressed(r, organ)
  }

  /** Out of reach of the write head, a call fills the whole buffer. */
  lemma {:induction false} FillsBuffer(r: Ring, head: nat, organ: Byte, max: nat)
    requires Stranded(r, head, organ)
    ensures |AbsorbFrom(r, head, organ, max).0| == max
    decreases Quota(r, head, max), Gap(r, head, organ)
  {
    if max > 0 {
      ReadCloser(r, head, organ, max);
      FillsBuffer(r, Advance(head, r.capacity), organ, Left(r, head, organ, max));
    }
  }

  /** A call with the smaller buffer hands out the beginning of what one with the larger does. */
  lemma {:induction false} Prefix(r: Ring, head: nat, organ: Byte, small: nat, large: nat)
    requires Stranded(r, head, organ) && small <= large
    ensures AbsorbFrom(r, head, organ, small).0 <= AbsorbFrom(r, head, organ, large).0
    decreases Quota(r, head, small), Gap(r, head, organ)
  {
    if small > 0 {
      ReadCloser(r, head, organ, small);
      Prefix(r, Advance(head, r.capacity), organ, Left(r, head, organ, small), Left(r, head, organ, large));
    }
  }

  lemma OneSlot(r: Ring, head: nat, organ: Byte, max: int)
    requires Stranded(r, head, organ) && max > 0
    ensures Advance(head, r.capacity) == (head + 1) % r.capacity < r.capacity
    ensures var first := Matching([r.blood[head]], organ);
            AbsorbFrom(r, head, organ, max).0
            == first + AbsorbFrom(r, Advance(head, r.capacity), organ, max - |first|).0
  {
    MatchingOne(r.blood[head], organ);
  }

  /** The slots from `head` up to `stop` are handed out first, if the buffer has room for them. */
  lemma {:induction false} Segment(r: Ring, head: nat, stop: nat, organ: Byte, max: int)
    requires Stranded(r, head, organ) && head <= stop <= r.capacity
    requires |Matching(r.blood[head..stop], organ)| < max
    ensures AbsorbFrom(r, head, organ, max).0
            == Matching(r.blood[head..stop], organ)
               + AbsorbFrom(r, stop % r.capacity, organ, max - |Matching(r.blood[head..stop], organ)|).0
    decreases stop - head
  {
    hide AbsorbFrom, Matching, Advance;
    var seg := r.blood[head..stop];
    if head == stop {
      assert seg == [];
      EmptyMatching(organ);
      SmallMod(stop, r.capacity);
    } else {
      var first, others := [r.blood[head]], r.blood[head + 1..stop];
      assert seg == first + others;
      MatchingConcat(first, others, organ);
      OneSlot(r, head, organ, max);
      if head + 1 < r.capacity {
        SmallMod(head + 1, r.capacity);
        Segment(r, head + 1, stop, organ, max - |Matching(first, organ)|);
      } else {
        assert others == [];
        EmptyMatching(organ);
      }
    }
  }

  lemma EmptyMatching(organ: Byte)
    ensures Matching([], organ) == []
  {
  }

  /** After a full lap the call goes on as if it had just begun. */
  lemma LapThenAgain(r: Ring, head: nat, organ: Byte, max: int)
    requires Stranded(r, head, organ) && |Lap(r, head, organ)| < max
    ensures AbsorbFrom(r, head, organ, max).0
            == Lap(r, head, organ) + AbsorbFrom(r, head, organ, max - |Lap(r, head, organ)|).0
  {
    hide AbsorbFrom, Matching;
    var first := Matching(r.blood[head..r.capacity], organ);
    Segment(r, head, r.capacity, organ, max);
    assert r.capacity % r.capacity == 0;
    assert r.blood[0..head] == r.blood[..head];
    SmallMod(head, r.capacity);
    Segment(r, 0, head, organ, max - |first|);
  }

  /** Out of reach of the write head every globule is handed out again one lap later: a buffer larger
      than one lap gets repetitions, with the same ids, up to its last place. */
  lemma HandedOutAgain(r: Ring, head: nat, organ: Byte, max: int)
    requires Stranded(r, head, organ) && |Lap(r, head, organ)| < max
    ensures var got := AbsorbFrom(r, head, organ, max).0;
            var lap := |Lap(r, head, organ)|;
            && |got| == max && 0 < lap
            && got[..lap] == Lap(r, head, organ)
            && forall i :: 0 <= i < max - lap ==> got[lap + i] == got[i]
  {
    var lap := |Lap(r, head, organ)|;
    LapThenAgain(r, head, organ, max);
    FillsBuffer(r, head, organ, max);
    Prefix(r, head, organ, max - lap, max);
    FillsBuffer(r, head, organ, max - lap);
    LapIsNotEmpty(r, head, organ);
  }

  lemma LapIsNotEmpty(r: Ring, head: nat, organ: Byte)
    requires Stranded(r, head, organ)
    ensures Lap(r, head, organ) != []
  {
    var p :| 0 <= p < r.capacity && Concerns(r.blood[p], organ);
    if head <= p {
      Occurs(r.blood[head..r.capacity], p - head, organ);
    } else {
      Occurs(r.blood[..head], p, organ);
    }
  }

  lemma {:induction false} Occurs(s: seq<Globule>, k: nat, organ: Byte)
    requires k < |s| && Concerns(s[k], organ)
    ensures Matching(s, organ) != []
  {
    if k < |s| - 1 {
      Occurs(s[..|s| - 1], k, organ);
    }
  }
}
