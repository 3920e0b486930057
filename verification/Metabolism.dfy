/** The energy metabolism as a value (vital-baremetal/src/energy_metabolism.c), and energy
    accounting over every run. Counters are uint64_t and wrap. */
module Metabolism {

  const MAX_ORGANS: int := 16
  const U32: int := 0x1_0000_0000
  const U64: int := 0x1_0000_0000_0000_0000
  const CYCLE: int := 50_000

  type Byte = b: int | 0 <= b < 256
  type UInt64 = n: int | 0 <= n < U64

  datatype Organ = Organ(id: Byte, consumed: UInt64, allowance: UInt64, rate: nat, fasting: bool)

  datatype Liver = Liver(pool: UInt64, generated: UInt64, wasted: UInt64, basal: nat)

  /** `cycle` is the static counter of metabolism_tick. */
  datatype Body = Body(organs: seq<Organ>, liver: Liver, cycle: nat)

  function Init(energy: UInt64, cycle: nat): Body {
    Body([], Liver(energy, energy, 0, 100), cycle)
  }

  function Register(b: Body, id: Byte, budget: UInt64): Body {
    if |b.organs| >= MAX_ORGANS then b
    else b.(organs := b.organs + [Organ(id, 0, budget, 10, false)])
  }

  function FindOrgan(organs: seq<Organ>, id: Byte, from: nat): (i: int)
    requires from <= |organs|
    ensures i == -1 || (from <= i < |organs| && organs[i].id == id)
    ensures forall j :: from <= j < (if i == -1 then |organs| else i) ==> organs[j].id != id
    decreases |organs| - from
  {
    if from == |organs| then -1
    else if organs[from].id == id then from
    else FindOrgan(organs, id, from + 1)
  }

  function Min(a: int, b: int): int {
    if a <= b then a else b
  }

  /** What a request is granted, lines 51-60. */
  function Grant(o: Organ, pool: UInt64, amount: UInt64): (granted: UInt64)
    ensures granted <= amount && granted <= pool
    ensures o.fasting ==> granted == 0
    ensures o.consumed <= o.allowance ==> o.consumed + granted <= o.allowance
  {
    if o.fasting then 0
    else Min(Min(amount, (o.allowance - o.consumed) % U64), pool)
  }

  function Charge(o: Organ, granted: UInt64): Organ {
    var consumed := (o.consumed + granted) % U64;
    o.(consumed := consumed, fasting := o.fasting || consumed >= o.allowance)
  }

  function Request(b: Body, id: Byte, amount: UInt64): (Body, UInt64) {
    var i := FindOrgan(b.organs, id, 0);
    if i == -1 || b.organs[i].fasting then (b, 0)
    else
      var granted := Grant(b.organs[i], b.liver.pool, amount);
      (b.(organs := b.organs[i := Charge(b.organs[i], granted)],
          liver := b.liver.(pool := b.liver.pool - granted)), granted)
  }

  function Generate(l: Liver, amount: UInt64): Liver {
    l.(pool := (l.pool + amount) % U64, generated := (l.generated + amount) % U64)
  }

  /** Line 81-90: the cost of being alive; a famine empties the pool. */
  function Burn(l: Liver): Liver {
    if l.pool > l.basal then l.(pool := l.pool - l.basal, wasted := (l.wasted + l.basal) % U64)
    else l.(pool := 0)
  }

  predicate Recycles(b: Body) {
    (b.cycle + 1) % U32 % CYCLE == 0
  }

  function Recycled(organs: seq<Organ>): (organs': seq<Organ>)
    ensures |organs'| == |organs|
  {
    seq(|organs|, i requires 0 <= i < |organs| => organs[i].(consumed := organs[i].consumed / 2, fasting := false))
  }

  /** `asleep` says that consciousness is dormant or dreaming. */
  function Tick(b: Body, asleep: bool): Body
    requires b.liver.basal <= 100
  {
    var burned := Burn(b.liver);
    var rested := if asleep then Generate(burned, burned.basal * 2) else burned;
    Body(if Recycles(b) then Recycled(b.organs) else b.organs,
         rested.(basal := if rested.pool < 10_000 then 50 else 100),
         (b.cycle + 1) % U32)
  }

  // ----- runs ----------------------------------------------------------------

  datatype Op =
    | OpRegister(id: Byte, budget: UInt64)
    | OpRequest(id: Byte, amount: UInt64)
    | OpGenerate(amount: UInt64)
    | OpTick(asleep: bool)

  function Apply(b: Body, op: Op): Body
    requires b.liver.basal <= 100
  {
    match op
    case OpRegister(id, budget) => Register(b, id, budget)
    case OpRequest(id, amount) => Request(b, id, amount).0
    case OpGenerate(amount) => b.(liver := Generate(b.liver, amount))
    case OpTick(asleep) => Tick(b, asleep)
  }

  ghost predicate ValidBody(b: Body) {
    && |b.organs| <= MAX_ORGANS && (b.liver.basal == 50 || b.liver.basal == 100)
    && forall i :: 0 <= i < |b.organs| ==> b.organs[i].consumed <= b.organs[i].allowance
  }

  lemma ApplyValid(b: Body, op: Op)
    requires ValidBody(b)
    ensures ValidBody(Apply(b, op))
  {
  }

  /** The energy a step hands out, brings in, and drops in a famine. */
  function GrantedBy(b: Body, op: Op): nat {
    if op.OpRequest? then Request(b, op.id, op.amount).1 else 0
  }

  function SuppliedBy(b: Body, op: Op): nat {
    match op
    case OpGenerate(amount) => amount
    case OpTick(asleep) => if asleep then 2 * b.liver.basal else 0
    case _ => 0
  }

  function LostBy(b: Body, op: Op): nat {
    if op.OpTick? && b.liver.pool <= b.liver.basal then b.liver.pool else 0
  }

  /** A run's body with the exact, never wrapping totals. */
  datatype Ledger = Ledger(body: Body, granted: nat, supplied: nat, lost: nat)

  function After(energy: UInt64, ops: seq<Op>): (l: Ledger)
    ensures ValidBody(l.body)
  {
    if ops == [] then Ledger(Init(energy, 0), 0, energy, 0)
    else
      var l := After(energy, ops[..|ops| - 1]);
      var op := ops[|ops| - 1];
      ApplyValid(l.body, op);
      Ledger(Apply(l.body, op), l.granted + GrantedBy(l.body, op), l.supplied + SuppliedBy(l.body, op),
             l.lost + LostBy(l.body, op))
  }

  function Accounted(l: Ledger): nat {
    l.body.liver.pool + l.body.liver.wasted + l.granted + l.lost
  }

  /** As long as the counters cannot have wrapped, no energy appears or disappears. */
  ghost predicate Balanced(l: Ledger) {
    l.supplied < U64 ==> Accounted(l) == l.supplied == l.body.liver.generated
  }

  lemma Small(n: nat)
    requires n < U64
    ensures n % U64 == n
  {
  }

  lemma GenerateBalances(l: Liver, amount: UInt64)
    requires l.pool + amount < U64 && l.generated + amount < U64
    ensures Generate(l, amount) == l.(pool := l.pool + amount, generated := l.generated + amount)
  {
    Small(l.pool + amount);
    Small(l.generated + amount);
  }

  lemma BurnBalances(l: Liver)
    requires l.pool + l.wasted < U64
    ensures Burn(l).pool + Burn(l).wasted + (if l.pool <= l.basal then l.pool else 0) == l.pool + l.wasted
    ensures Burn(l).generated == l.generated && Burn(l).basal == l.basal
  {
    if l.pool > l.basal {
      Small(l.wasted + l.basal);
    }
  }

  lemma TickBalances(b: Body, asleep: bool)
    requires ValidBody(b)
    requires b.liver.pool + b.liver.wasted + SuppliedBy(b, OpTick(asleep)) < U64
    requires b.liver.generated + SuppliedBy(b, OpTick(asleep)) < U64
    ensures var l := Tick(b, asleep).liver;
            && l.pool + l.wasted + LostBy(b, OpTick(asleep))
               == b.liver.pool + b.liver.wasted + SuppliedBy(b, OpTick(asleep))
            && l.generated == b.liver.generated + SuppliedBy(b, OpTick(asleep))
  {
    BurnBalances(b.liver);
    if asleep {
      GenerateBalances(Burn(b.liver), 2 * b.liver.basal);
    }
  }

  lemma StepBalanced(energy: UInt64, ops: seq<Op>)
    requires ops != [] && Balanced(After(energy, ops[..|ops| - 1]))
    ensures Balanced(After(energy, ops))
  {
    var l := After(energy, ops[..|ops| - 1]);
    if After(energy, ops).supplied < U64 {
      match ops[|ops| - 1] {
        case OpGenerate(amount) => GenerateBalances(l.body.liver, amount);
        case OpTick(asleep) => TickBalances(l.body, asleep);
        case _ =>
      }
    }
  }

  lemma {:induction false} RunBalanced(energy: UInt64, ops: seq<Op>)
    ensures Balanced(After(energy, ops))
  {
    if ops != [] {
      RunBalanced(energy, ops[..|ops| - 1]);
      StepBalanced(energy, ops);
    }
  }

  /** Over every run: pool, waste, grants and famine losses add up to the energy supplied, and the
      books say so, if and only if the total supply fits in 64 bits. Then what is in the pool, wasted
      and granted never exceeds what was generated. In every run no organ has consumed more than its
      allocation. */
  lemma EnergyConserved(energy: UInt64, ops: seq<Op>)
    ensures var l := After(energy, ops);
            && (l.supplied < U64 <==> Accounted(l) == l.supplied == l.body.liver.generated)
            && (l.supplied < U64 ==> l.body.liver.pool + l.body.liver.wasted + l.granted <= l.body.liver.generated)
            && forall i :: 0 <= i < |l.body.organs| ==> l.body.organs[i].consumed <= l.body.organs[i].allowance
  {
    RunBalanced(energy, ops);
  }

  /** When the supply no longer fits, the books break: two deposits of 2^63 leave an empty pool. */
  lemma WrapLosesEnergy()
    ensures var l := After(0, [OpGenerate(U64 / 2), OpGenerate(U64 / 2)]);
            l.supplied == U64 && Accounted(l) == 0 && l.body.liver.generated == 0
  {
    var one := [OpGenerate(U64 / 2)];
    var two := [OpGenerate(U64 / 2), OpGenerate(U64 / 2)];
    assert one[..0] == [] && two[..1] == one;
    assert After(0, one).body.liver.pool == U64 / 2;
  }

  // ----- one organ between two recyclings ------------------------------------

  function Bodies(b: Body, ops: seq<Op>): (b': Body)
    requires ValidBody(b)
    ensures ValidBody(b')
  {
    if ops == [] then b
    else
      var prev := Bodies(b, ops[..|ops| - 1]);
      ApplyValid(prev, ops[|ops| - 1]);
      Apply(prev, ops[|ops| - 1])
  }

  function GrantedTo(b: Body, ops: seq<Op>, id: Byte): nat
    requires ValidBody(b)
  {
    if ops == [] then 0
    else
      var op := ops[|ops| - 1];
      var prev := Bodies(b, ops[..|ops| - 1]);
      GrantedTo(b, ops[..|ops| - 1], id) + if op.OpRequest? && op.id == id then GrantedBy(prev, op) else 0
  }

  ghost predicate NoRecycling(b: Body, ops: seq<Op>)
    requires ValidBody(b)
  {
    forall k :: 0 <= k < |ops| && ops[k].OpTick? ==> !Recycles(Bodies(b, ops[..k]))
  }

  lemma {:induction false} FoundStays(organs: seq<Organ>, more: seq<Organ>, id: Byte, i: nat)
    requires FindOrgan(organs, id, 0) == i
    ensures FindOrgan(organs + more, id, 0) == i
  {
    var j := FindOrgan(organs + more, id, 0);
    assert (organs + more)[i].id == id;
    assert j <= i;
    assert forall k :: 0 <= k < i ==> (organs + more)[k] == organs[k];
  }

  lemma FoundUnder(organs: seq<Organ>, organs': seq<Organ>, id: Byte, i: nat)
    requires FindOrgan(organs, id, 0) == i && |organs'| == |organs|
    requires forall k :: 0 <= k < |organs| ==> organs'[k].id == organs[k].id
    ensures FindOrgan(organs', id, 0) == i
  {
    var j := FindOrgan(organs', id, 0);
    assert organs'[i].id == id;
    assert j <= i;
  }

  lemma StepOrgan(b: Body, op: Op, id: Byte, i: nat)
    requires ValidBody(b) && FindOrgan(b.organs, id, 0) == i
    requires op.OpTick? ==> !Recycles(b)
    ensures var b' := Apply(b, op);
            && FindOrgan(b'.organs, id, 0) == i
            && b'.organs[i].allowance == b.organs[i].allowance
            && b'.organs[i].consumed
               == b.organs[i].consumed + (if op.OpRequest? && op.id == id then GrantedBy(b, op) else 0)
            && (b.organs[i].fasting ==>
                  b'.organs[i].fasting && (op.OpRequest? && op.id == id ==> GrantedBy(b, op) == 0))
  {
    match op {
      case OpRegister(rid, budget) => FoundStays(b.organs, [Organ(rid, 0, budget, 10, false)], id, i);
      case OpRequest(rid, amount) =>
        var j := FindOrgan(b.organs, rid, 0);
        if j != -1 && !b.organs[j].fasting {
          Small(b.organs[j].consumed + Grant(b.organs[j], b.liver.pool, amount));
          FoundUnder(b.organs, Apply(b, op).organs, id, i);
        }
      case _ =>
    }
  }

  /** Between two recyclings an organ is granted exactly the growth of its consumption, hence never
      more than its allocation still allowed; one that fasts stays fasting and is granted nothing. */
  lemma {:induction false} BudgetBetweenRecyclings(b: Body, ops: seq<Op>, id: Byte, i: nat)
    requires ValidBody(b) && FindOrgan(b.organs, id, 0) == i && NoRecycling(b, ops)
    ensures var b' := Bodies(b, ops);
            && FindOrgan(b'.organs, id, 0) == i
            && b'.organs[i].allowance == b.organs[i].allowance
            && b'.organs[i].consumed == b.organs[i].consumed + GrantedTo(b, ops, id)
            && GrantedTo(b, ops, id) <= b.organs[i].allowance - b.organs[i].consumed
            && (b.organs[i].fasting ==> b'.organs[i].fasting && GrantedTo(b, ops, id) == 0)
  {
    if ops != [] {
      var init := ops[..|ops| - 1];
      forall k | 0 <= k < |init| && init[k].OpTick?
        ensures !Recycles(Bodies(b, init[..k]))
      {
        assert init[..k] == ops[..k];
      }
      BudgetBetweenRecyclings(b, init, id, i);
      StepOrgan(Bodies(b, init), ops[|ops| - 1], id, i);
    }
  }
}
