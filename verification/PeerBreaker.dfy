/** The per-peer circuit breaker of `send_gossip_to_peers` (colony-server/src/main.rs, 705-762). */
module PeerBreaker {
  import opened Gossip
  import opened ColonyNode

  /** What the network does with one attempt: whether the copy arrives, and whether the
      sender sees a success status in time. */
  datatype Reply = Reply(arrived: bool, acknowledged: bool)

  /** Its answers to the up to three attempts at each peer. */
  type Network = string -> seq<Reply>

  type Failures = map<string, nat>

  ghost predicate ValidReplies(r: seq<Reply>) {
    |r| == MAX_ATTEMPTS && forall k :: 0 <= k < |r| && r[k].acknowledged ==> r[k].arrived
  }

  predicate Open(f: Failures, p: string) {
    p in f && f[p] >= BREAKER_LIMIT
  }

  predicate Answered(r: seq<Reply>) {
    exists k :: 0 <= k < |r| && r[k].acknowledged
  }

  /** A peer answers a send if any of the three attempts is acknowledged. */
  lemma AnsweredExact(r: seq<Reply>)
    requires ValidReplies(r)
    ensures |r| == 3 && (Answered(r) <==> r[0].acknowledged || r[1].acknowledged || r[2].acknowledged)
  {
  }

  function AfterPeer(f: Failures, p: string, r: seq<Reply>): Failures {
    if Open(f, p) then f
    else if Answered(r) then f - {p}
    else f[p := (if p in f then f[p] else 0) + 1]
  }

  function AfterRound(f: Failures, order: seq<string>, replies: Network): Failures
  {
    if order == [] then f
    else
      var last := order[|order| - 1];
      AfterPeer(AfterRound(f, order[..|order| - 1], replies), last, replies(last))
  }

  function FailureCount(f: Failures, p: string): nat {
    if p in f then f[p] else 0
  }

  /** A round treats each peer on its own. */
  lemma {:induction false} RoundAtPeer(f: Failures, order: seq<string>, replies: Network, p: string)
    requires forall i, j :: 0 <= i < j < |order| ==> order[i] != order[j]
    ensures var after := AfterRound(f, order, replies);
            if p in order
            then FailureCount(after, p) == FailureCount(AfterPeer(f, p, replies(p)), p)
            else FailureCount(after, p) == FailureCount(f, p)
  {
    if order != [] {
      var init := order[..|order| - 1];
      RoundAtPeer(f, init, replies, p);
      assert forall k :: 0 <= k < |init| ==> init[k] == order[k];
      assert p in order <==> p in init || p == order[|order| - 1];
    }
  }

  datatype Round = Round(order: seq<string>, replies: Network)

  ghost predicate ValidRound(r: Round) {
    forall i, j :: 0 <= i < j < |r.order| ==> r.order[i] != r.order[j]
  }

  function AfterRounds(f: Failures, rounds: seq<Round>): Failures
  {
    if rounds == [] then f
    else
      var last := rounds[|rounds| - 1];
      AfterRound(AfterRounds(f, rounds[..|rounds| - 1]), last.order, last.replies)
  }

  function Min(a: nat, b: nat): nat {
    if a < b then a else b
  }

  /** As long as a peer never answers, its count grows by one per round it takes part in and
      stops at five. */
  lemma {:induction false} SilentPeerCount(f: Failures, rounds: seq<Round>, p: string)
    requires forall k :: 0 <= k < |rounds| ==> ValidRound(rounds[k])
    requires forall k :: 0 <= k < |rounds| ==> p in rounds[k].order && !Answered(rounds[k].replies(p))
    requires FailureCount(f, p) <= BREAKER_LIMIT
    ensures FailureCount(AfterRounds(f, rounds), p) == Min(FailureCount(f, p) + |rounds|, 5)
  {
    if rounds != [] {
      var last := rounds[|rounds| - 1];
      var prev := AfterRounds(f, rounds[..|rounds| - 1]);
      SilentPeerCount(f, rounds[..|rounds| - 1], p);
      RoundAtPeer(prev, last.order, last.replies, p);
    }
  }

  /** An open breaker does not close while the server runs: an open peer is not attempted, so no answer can
      reset it. A restart begins without failure counts. */
  lemma {:induction false} OpenStaysOpen(f: Failures, rounds: seq<Round>, p: string)
    requires forall k :: 0 <= k < |rounds| ==> ValidRound(rounds[k])
    requires Open(f, p)
    ensures Open(AfterRounds(f, rounds), p)
  {
    if rounds != [] {
      var last := rounds[|rounds| - 1];
      OpenStaysOpen(f, rounds[..|rounds| - 1], p);
      RoundAtPeer(AfterRounds(f, rounds[..|rounds| - 1]), last.order, last.replies, p);
    }
  }

  // ----- exactly when a breaker is open --------------------------------------

  /** A peer's tries: for each round it takes part in, whether it would answer. */
  function Tries(rounds: seq<Round>, p: string): seq<bool> {
    if rounds == [] then []
    else
      var last := rounds[|rounds| - 1];
      Tries(rounds[..|rounds| - 1], p) + if p in last.order then [Answered(last.replies(p))] else []
  }

  /** Five consecutive silent tries. */
  ghost predicate FiveSilent(tries: seq<bool>) {
    exists k :: 0 <= k && k + 5 <= |tries| && SilentFrom(tries, k, 5)
  }

  ghost predicate SilentFrom(tries: seq<bool>, k: nat, n: nat)
    requires k + n <= |tries|
  {
    forall j :: k <= j < k + n ==> !tries[j]
  }

  /** The number of silent tries at the end. */
  function SilentTail(tries: seq<bool>): (n: nat)
    ensures n <= |tries| && SilentFrom(tries, |tries| - n, n)
    ensures n < |tries| ==> tries[|tries| - n - 1]
  {
    if tries == [] || tries[|tries| - 1] then 0 else SilentTail(tries[..|tries| - 1]) + 1
  }

  /** Earlier failures count as silent tries. */
  function Failed(count: nat): seq<bool> {
    seq(count, _ => false)
  }

  /** The count goes with the silent tries at the end until there are five of them, and stays at five or
      more from then on. */
  ghost predicate Counts(count: nat, tries: seq<bool>) {
    if FiveSilent(tries) then count >= BREAKER_LIMIT else count == SilentTail(tries) < BREAKER_LIMIT
  }

  lemma FiveSilentSnoc(tries: seq<bool>, answered: bool)
    ensures FiveSilent(tries + [answered])
            <==> FiveSilent(tries) || (!answered && SilentTail(tries) >= BREAKER_LIMIT - 1)
    ensures SilentTail(tries + [answered]) == if answered then 0 else SilentTail(tries) + 1
  {
    var longer := tries + [answered];
    assert longer[..|tries|] == tries;
    if FiveSilent(tries) {
      var k :| 0 <= k && k + BREAKER_LIMIT <= |tries| && SilentFrom(tries, k, BREAKER_LIMIT);
      assert SilentFrom(longer, k, BREAKER_LIMIT);
    } else if FiveSilent(longer) {
      var k :| 0 <= k && k + BREAKER_LIMIT <= |longer| && SilentFrom(longer, k, BREAKER_LIMIT);
      LastFive(tries, answered, k);
    } else if !answered && SilentTail(tries) >= BREAKER_LIMIT - 1 {
      assert SilentFrom(longer, |longer| - BREAKER_LIMIT, BREAKER_LIMIT);
    }
  }

  lemma LastFive(tries: seq<bool>, answered: bool, k: nat)
    requires k + BREAKER_LIMIT <= |tries| + 1 && SilentFrom(tries + [answered], k, BREAKER_LIMIT)
    ensures FiveSilent(tries) || (!answered && SilentTail(tries) >= BREAKER_LIMIT - 1)
  {
    var longer := tries + [answered];
    if k + BREAKER_LIMIT <= |tries| {
      assert forall j :: k <= j < k + BREAKER_LIMIT ==> tries[j] == longer[j];
      assert SilentFrom(tries, k, BREAKER_LIMIT);
    } else {
      assert longer[|tries|] == answered;
      assert forall j :: 0 <= j < |tries| ==> longer[j] == tries[j];
    }
  }

  /** One round, seen from one peer. */
  lemma RoundCounts(f: Failures, r: Round, p: string, tries: seq<bool>)
    requires ValidRound(r) && Counts(FailureCount(f, p), tries)
    ensures var after := FailureCount(AfterRound(f, r.order, r.replies), p);
            Counts(after, if p in r.order then tries + [Answered(r.replies(p))] else tries)
  {
    hide FiveSilent, SilentTail, AfterRound;
    RoundAtPeer(f, r.order, r.replies, p);
    FiveSilentSnoc(tries, Answered(r.replies(p)));
  }

  lemma {:induction false} InitialCounts(count: nat)
    ensures Counts(count, Failed(count))
  {
    if count == 0 {
      assert SilentTail(Failed(0)) == 0;
    } else {
      InitialCounts(count - 1);
      FiveSilentSnoc(Failed(count - 1), false);
      assert Failed(count) == Failed(count - 1) + [false];
    }
  }

  lemma {:induction false} RunCounts(f: Failures, rounds: seq<Round>, p: string)
    requires forall k :: 0 <= k < |rounds| ==> ValidRound(rounds[k])
    ensures Counts(FailureCount(AfterRounds(f, rounds), p), Failed(FailureCount(f, p)) + Tries(rounds, p))
  {
    var before := Failed(FailureCount(f, p));
    if rounds == [] {
      InitialCounts(FailureCount(f, p));
      assert before + Tries(rounds, p) == before;
    } else {
      var init, last := rounds[..|rounds| - 1], rounds[|rounds| - 1];
      hide Counts;
      RunCounts(f, init, p);
      RoundCounts(AfterRounds(f, init), last, p, before + Tries(init, p));
      var answered := Answered(last.replies(p));
      assert (before + Tries(init, p)) + [answered] == before + (Tries(init, p) + [answered]);
      assert Tries(init, p) + [] == Tries(init, p);
    }
  }

  /** After a run a breaker is open if and only if some five consecutive tries of that peer were silent, where
      the failures counted before the run stand for silent tries in front of it. */
  lemma OpenExact(f: Failures, rounds: seq<Round>, p: string)
    requires forall k :: 0 <= k < |rounds| ==> ValidRound(rounds[k])
    ensures Open(AfterRounds(f, rounds), p) <==> FiveSilent(Failed(FailureCount(f, p)) + Tries(rounds, p))
  {
    RunCounts(f, rounds, p);
  }
}
