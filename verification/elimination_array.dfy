/**
 * The fixed array of exchanger slots of the elimination-backoff stack,
 * built once and never resized. `Visit` picks one slot (the source draws the
 * index with `math/rand`; here it is any index in range) and runs one
 * exchange there, with no other party acting on the slot meanwhile.
 */
module EliminationArray {
  import opened Wrappers
  import opened Stacks
  import opened Exchanger

  class ExchangersArray<T(==)> {
    const exchangers: array<Slot?<T>>
    const replays: int
    const power: int

    /** `power` distinct slots, all present. */
    ghost predicate Valid()
      reads exchangers
    {
      && exchangers.Length == power
      && (forall i :: 0 <= i < power ==> exchangers[i] != null)
      && (forall i, j :: 0 <= i < j < power ==> exchangers[i] != exchangers[j])
    }

    ghost function Slots(): set<object?>
      reads exchangers
    {
      set i | 0 <= i < exchangers.Length :: exchangers[i]
    }

    /** No slot's item differs from what it was before. */
    twostate predicate Unchanged()
      requires Valid() && unchanged(exchangers)
      reads exchangers, Slots()
    {
      forall i :: 0 <= i < power ==> exchangers[i].elem == old(exchangers[i].elem)
    }

    /**
     * Slot `index` held a waiter carrying `received` and now holds `offered`
     * in the busy state; every other slot is as it was.
     */
    twostate predicate Eliminated(index: int, new offered: Option<T>, new received: Option<T>)
      requires Valid() && unchanged(exchangers)
      reads exchangers, Slots()
    {
      && 0 <= index < power
      && old(exchangers[index].elem) == Item(received, Waiting)
      && exchangers[index].elem == Item(offered, Busy)
      && forall i :: 0 <= i < power && i != index ==> exchangers[i].elem == old(exchangers[i].elem)
    }

    /** freshExchangersArray(power, replays): `power` fresh slots, each `(nil, empty)`. */
    constructor (power: int, replays: int)
      requires power >= 0
      ensures this.power == power && this.replays == replays
      ensures Valid() && fresh(exchangers) && fresh(Slots())
      ensures forall i :: 0 <= i < power ==> fresh(exchangers[i]) && exchangers[i].elem == Item(None, Empty)
    {
      this.power := power;
      this.replays := replays;
      var slots := new Slot?<T>[power];
      for i := 0 to power
        invariant forall k :: 0 <= k < i ==> slots[k] != null && fresh(slots[k]) && slots[k].elem == Item(None, Empty)
        invariant forall k, l :: 0 <= k < l < i ==> slots[k] != slots[l]
      {
        var slot := new Slot<T>();
        slots[i] := slot;
      }
      exchangers := slots;
    }

    /**
     * visit(value): one exchange on slot `index`, with the array's `replays`.
     * `rand.Intn` needs a positive `power`.
     */
    method Visit(value: Option<T>) returns (r: Result<Option<T>>, ghost index: int)
      requires Valid() && power > 0
      modifies Slots()
      ensures 0 <= index < power
      ensures forall i :: 0 <= i < power && i != index ==> exchangers[i].elem == old(exchangers[i].elem)
      ensures r.Ok? <==>
        replays > 0 && old(exchangers[index].elem).state == Waiting
        && Complementary(old(exchangers[index].elem).value, value)
      ensures r.Ok? ==> r.value == old(exchangers[index].elem).value && exchangers[index].elem == Item(value, Busy)
      ensures r.Err? ==> r.error == IterationsExceeded && exchangers[index].elem == old(exchangers[index].elem)
    {
      var k :| 0 <= k < power;
      ghost var loads;
      r, loads := exchangers[k].Exchange(value, replays, []);
      index := k;
    }
  }
}
