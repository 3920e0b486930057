/** What a request gets, what a tick costs, and how consumption is forgiven over time. */
module MetabolismLaws {
  import opened Metabolism

  /** A request of a known organ that does not fast gets all it asked for, unless that empties the pool or uses
      up the allocation; the amount leaves the pool and enters the consumption of the first organ with the id, which
      then fasts if and only if its allocation is used up. Nobody else gets anything, and nothing changes. */
  lemma RequestExact(b: Body, id: Byte, amount: UInt64)
    requires ValidBody(b)
    ensures var (b', granted) := Request(b, id, amount);
            var i := FindOrgan(b.organs, id, 0);
            if i == -1 || b.organs[i].fasting then b' == b && granted == 0
            else
              var o, o' := b.organs[i], b'.organs[i];
              && b'.liver.pool == b.liver.pool - granted
              && o'.consumed == o.consumed + granted && granted <= amount
              && (granted == amount || b'.liver.pool == 0 || o'.consumed == o.allowance)
              && (o'.fasting <==> o'.consumed == o.allowance)
              && o'.id == o.id && o'.allowance == o.allowance
              && b'.organs == b.organs[i := o'] && b'.cycle == b.cycle
              && b'.liver.generated == b.liver.generated && b'.liver.wasted == b.liver.wasted
  {
    var i := FindOrgan(b.organs, id, 0);
    if i != -1 && !b.organs[i].fasting {
      Small(b.organs[i].consumed + Grant(b.organs[i], b.liver.pool, amount));
      Small(b.organs[i].allowance - b.organs[i].consumed);
    }
  }

  /** A tick costs the basal rate, or all that is left; in sleep twice the basal rate is regained; the rate for the
      next tick is 50 below 10,000 and 100 from there on. */
  lemma TickExact(b: Body, asleep: bool)
    requires ValidBody(b) && b.liver.pool + 200 < U64 && b.liver.wasted + 100 < U64
    ensures var l, l' := b.liver, Tick(b, asleep).liver;
            var left := if l.pool > l.basal then l.pool - l.basal else 0;
            && l'.pool == (if asleep then left + 2 * l.basal else left)
            && l'.wasted == l.wasted + (if l.pool > l.basal then l.basal else 0)
            && l'.basal == (if l'.pool < 10_000 then 50 else 100)
            && Tick(b, asleep).cycle == (b.cycle + 1) % 0x1_0000_0000
  {
    Small(b.liver.wasted + b.liver.basal);
    Small(Burn(b.liver).pool + 2 * b.liver.basal);
  }

  /** Registering appends an organ that has consumed nothing, until there are sixteen. */
  lemma RegisterExact(b: Body, id: Byte, budget: UInt64)
    ensures Register(b, id, budget)
            == if |b.organs| >= 16 then b else b.(organs := b.organs + [Organ(id, 0, budget, 10, false)])
  {
  }

  // ----- recycling over time -------------------------------------------------

  /** One tick after the other; the flags say in which of them consciousness sleeps. */
  function Ticks(b: Body, sleeps: seq<bool>): (b': Body)
    requires ValidBody(b)
    ensures ValidBody(b')
  {
    if sleeps == [] then b
    else
      var before := Ticks(b, sleeps[..|sleeps| - 1]);
      ApplyValid(before, OpTick(sleeps[|sleeps| - 1]));
      Tick(before, sleeps[|sleeps| - 1])
  }

  function Halved(n: nat, times: nat): nat {
    if times == 0 then n else Halved(n, times - 1) / 2
  }

  /** How many multiples of 50,000 lie after `from`, up to `to`. */
  function Recyclings(from: nat, upTo: nat): nat
    requires from <= upTo
  {
    upTo / 50_000 - from / 50_000
  }

  lemma NextRecycling(from: nat, upTo: nat)
    requires from <= upTo
    ensures Recyclings(from, from) == 0
    ensures Recyclings(from, upTo + 1) == Recyclings(from, upTo) + if (upTo + 1) % 50_000 == 0 then 1 else 0
  {
  }

  /** As long as the cycle counter does not wrap, ticks alone halve every organ's consumption once per 50,000
      cycles, end every fast at the first of these, and change nothing else about the organs. */
  lemma {:induction false} TicksForgive(b: Body, sleeps: seq<bool>, i: nat)
    requires ValidBody(b) && i < |b.organs| && b.cycle + |sleeps| < U32
    ensures var b' := Ticks(b, sleeps);
            var times := Recyclings(b.cycle, b.cycle + |sleeps|);
            && b'.cycle == b.cycle + |sleeps| && |b'.organs| == |b.organs|
            && b'.organs[i].consumed == Halved(b.organs[i].consumed, times)
            && (b'.organs[i].fasting <==> b.organs[i].fasting && times == 0)
            && b'.organs[i].id == b.organs[i].id && b'.organs[i].allowance == b.organs[i].allowance
  {
    NextRecycling(b.cycle, b.cycle);
    if sleeps != [] {
      var init := sleeps[..|sleeps| - 1];
      TicksForgive(b, init, i);
      NextRecycling(b.cycle, b.cycle + |init|);
      Small32(b.cycle + |sleeps|);
      hide Recyclings;
    }
  }

  lemma Small32(n: nat)
    requires n < U32
    ensures n % U32 == n
  {
  }
}
