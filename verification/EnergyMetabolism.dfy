/** The metabolism as it runs: a static liver record, an organ table and a cycle counter updated
    by each call (vital-baremetal/src/energy_metabolism.c), proved against Metabolism. */
module EnergyMetabolism {
  import opened Metabolism

  class LiverOrgan {
    const budgets: array<Organ>
    var registered: nat
    var pool: UInt64
    var generated: UInt64
    var wasted: UInt64
    var basal: nat
    var cycle: nat

    ghost predicate Valid()
      reads this, budgets
    {
      budgets.Length == MAX_ORGANS && registered <= MAX_ORGANS && ValidBody(View())
    }

    ghost function View(): Body
      requires registered <= budgets.Length
      reads this, budgets
    {
      Body(budgets[..registered], Liver(pool, generated, wasted, basal), cycle)
    }

    /** Lines 19-26, at boot */
    constructor (energy: UInt64)
      ensures Valid() && fresh(budgets) && View() == Init(energy, 0)
    {
      budgets := new Organ[MAX_ORGANS](_ => Organ(0, 0, 0, 0, false));
      registered := 0;
      pool, generated, wasted, basal := energy, energy, 0, 100;
      cycle := 0;
    }

    /** Lines 28-37 */
    method RegisterOrgan(id: Byte, budget: UInt64)
      requires Valid()
      modifies this`registered, budgets
      ensures Valid() && View() == Register(old(View()), id, budget)
    {
      if registered >= MAX_ORGANS {
        return;
      }
      ghost var organs := View().organs;
      budgets[registered] := Organ(id, 0, budget, 10, false);
      registered := registered + 1;
      assert View().organs == organs + [Organ(id, 0, budget, 10, false)];
    }

    /** Lines 42-47 */
    method FindEntry(id: Byte) returns (i: int)
      requires registered <= budgets.Length
      ensures i == FindOrgan(View().organs, id, 0)
    {
      i := 0;
      while i < registered
        invariant 0 <= i <= registered
        invariant FindOrgan(View().organs, id, 0) == FindOrgan(View().organs, id, i)
      {
        if budgets[i].id == id {
          return;
        }
        i := i + 1;
      }
      return -1;
    }

    /** Lines 39-73 */
    method RequestEnergy(id: Byte, amount: UInt64) returns (granted: UInt64)
      requires Valid()
      modifies this`pool, budgets
      ensures Valid() && (View(), granted) == Request(old(View()), id, amount)
    {
      var i := FindEntry(id);
      if i == -1 {
        return 0;
      }
      assert View().organs[i] == budgets[i];
      if budgets[i].fasting {
        return 0;
      }
      ApplyValid(View(), OpRequest(id, amount));
      granted := Transact(i, amount);
    }

    /** Lines 54-70 */
    method Transact(i: nat, amount: UInt64) returns (granted: UInt64)
      requires i < registered <= budgets.Length && !budgets[i].fasting
      modifies this`pool, budgets
      ensures granted == Grant(old(budgets[i]), old(pool), amount)
      ensures View() == old(View()).(organs := old(View()).organs[i := Charge(old(budgets[i]), granted)],
                                     liver := old(View()).liver.(pool := old(pool) - granted))
    {
      ghost var organs := View().organs;
      var remaining := (budgets[i].allowance - budgets[i].consumed) % U64;
      granted := if amount <= remaining then amount else remaining;
      if granted > pool {
        granted := pool;
      }
      budgets[i] := budgets[i].(consumed := (budgets[i].consumed + granted) % U64);
      pool := pool - granted;
      if budgets[i].consumed >= budgets[i].allowance {
        budgets[i] := budgets[i].(fasting := true);
      }
      assert View().organs == organs[i := budgets[i]];
    }

    /** Lines 75-78 */
    method GenerateEnergy(amount: UInt64)
      requires Valid()
      modifies this`pool, this`generated
      ensures Valid() && View() == old(View()).(liver := Generate(old(View()).liver, amount))
    {
      pool := (pool + amount) % U64;
      generated := (generated + amount) % U64;
    }

    /** Lines 80-118 */
    method Tick(asleep: bool)
      requires Valid()
      modifies this, budgets
      ensures Valid() && View() == Metabolism.Tick(old(View()), asleep)
    {
      ApplyValid(View(), OpTick(asleep));
      if pool > basal {
        pool := pool - basal;
        wasted := (wasted + basal) % U64;
      } else {
        pool := 0;
      }
      if asleep {
        GenerateEnergy(basal * 2);
      }
      cycle := (cycle + 1) % U32;
      if cycle % CYCLE == 0 {
        RecycleBudgets();
      }
      basal := if pool < 10_000 then 50 else 100;
    }

    /** Lines 103-107 */
    method RecycleBudgets()
      requires registered <= budgets.Length
      modifies budgets
      ensures View() == old(View()).(organs := Recycled(old(View()).organs))
    {
      ghost var organs := View().organs;
      for i := 0 to registered
        invariant forall k :: 0 <= k < i ==>
                    budgets[k] == organs[k].(consumed := organs[k].consumed / 2, fasting := false)
        invariant forall k :: i <= k < registered ==> budgets[k] == organs[k]
      {
        budgets[i] := budgets[i].(consumed := budgets[i].consumed / 2, fasting := false);
      }
      assert View().organs == Recycled(organs);
    }
  }
}
