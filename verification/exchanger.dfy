/**
 * One exchanger slot of the elimination-backoff stack: an atomically
 * replaced `(value, state)` pair driven through empty -> waiting -> busy ->
 * empty by `Exchange`.
 *
 * Other parties acting on the slot are represented by `schedule`: just before
 * the k-th atomic access (Load or compare-and-swap) of one `Exchange` call,
 * `schedule[k]`, when present, is the item another party has stored into the
 * slot. An empty schedule is the purely sequential semantics.
 */
module Exchanger {
  import opened Wrappers
  import opened Stacks

  /** The `status` constants: empty = 0, waiting = 1, busy = 2. */
  datatype State = Empty | Waiting | Busy

  /** `exchangerElem`: the offered value (`None` for a pop's nil pointer) and the slot state. */
  datatype Item<T> = Item(value: Option<T>, state: State)

  /** Two requests match when exactly one of them carries no value. */
  predicate Complementary<T>(a: Option<T>, b: Option<T>) {
    a.None? != b.None?
  }

  /** At most `replays + 1` Loads for a positive budget, none otherwise. */
  function LoadBound(replays: int): nat {
    if replays > 0 then replays + 1 else 0
  }

  class Slot<T(==)> {
    var elem: Item<T>

    /** A slot as the elimination array stores it: `(nil, empty)`. */
    constructor ()
      ensures elem == Item(None, Empty)
    {
      elem := Item(None, Empty);
    }

    /** Another party's store, if the schedule has one before the `step`-th access. */
    method Interfere(schedule: seq<Option<Item<T>>>, step: nat)
      modifies this
      ensures step < |schedule| && schedule[step].Some? ==> elem == schedule[step].value
      ensures !(step < |schedule| && schedule[step].Some?) ==> elem == old(elem)
    {
      if step < |schedule| && schedule[step].Some? {
        elem := schedule[step].value;
      }
    }

    /** `elem.CompareAndSwap(expected, desired)`. */
    method CompareAndSwap(expected: Item<T>, desired: Item<T>) returns (swapped: bool)
      modifies this
      ensures swapped == (old(elem) == expected)
      ensures elem == if swapped then desired else old(elem)
    {
      swapped := elem == expected;
      if swapped {
        elem := desired;
      }
    }

    /**
     * `exchange(value, replays)`: offers `value` (a push) or asks for one
     * (`None`, a pop) for at most `replays` rounds; `loads` counts the Loads.
     */
    method Exchange(value: Option<T>, replays: int, schedule: seq<Option<Item<T>>>)
      returns (r: Result<Option<T>>, ghost loads: nat)
      modifies this
      ensures loads <= LoadBound(replays)
      ensures r.Err? ==> r.error == IterationsExceeded
      ensures replays <= 0 ==> r == Err(IterationsExceeded) && elem == old(elem) && loads == 0
      // The caller that matched a waiter leaves its own value busy in the slot;
      // the waiter that saw `busy` leaves the slot `(nil, empty)`.
      ensures r.Ok? ==> (elem == Item(value, Busy) && Complementary(value, r.value)) || elem == Item(None, Empty)
      // The caller that matched a waiter took the value of a waiting item.
      ensures r.Ok? && elem == Item(value, Busy) ==>
        old(elem) == Item(r.value, Waiting) || Some(Item(r.value, Waiting)) in schedule
      // The waiter returns the value of the busy item its partner stored.
      ensures r.Ok? && elem.state == Empty ==>
        exists k :: 0 <= k < |schedule| && schedule[k] == Some(Item(r.value, Busy))
      // Sequential semantics: only a complementary waiter already in the slot is matched.
      ensures schedule == [] ==>
        (r.Ok? <==> replays > 0 && old(elem).state == Waiting && Complementary(old(elem).value, value))
      ensures schedule == [] && r.Ok? ==> r.value == old(elem).value && elem == Item(value, Busy)
      ensures schedule == [] && r.Err? ==> elem == old(elem)
    {
      loads := 0;
      var step := 0;
      var i := 0;
      while i < replays
        invariant 0 <= i <= (if replays > 0 then replays else 0)
        invariant loads == i
        invariant i == 0 ==> elem == old(elem)
        invariant schedule == [] ==> elem == old(elem)
        invariant elem == old(elem) || Some(elem) in schedule
        invariant schedule == [] && i > 0 ==> !(old(elem).state == Empty)
        invariant schedule == [] && i > 0 ==> !(old(elem).state == Waiting && Complementary(old(elem).value, value))
      {
        Interfere(schedule, step);
        step := step + 1;
        var current := elem;
        loads := loads + 1;
        match current.state {
          case Empty =>
            var oldItem := current;
            var newItem := Item(value, Waiting);
            Interfere(schedule, step);
            step := step + 1;
            var swapped := CompareAndSwap(oldItem, newItem);
            if swapped {
              // This caller is now the waiting party: poll for a partner.
              var j := i;
              while j < replays
                invariant i <= j <= replays
                invariant loads == j + 1
                invariant schedule == [] ==> elem == newItem && oldItem == old(elem)
                invariant elem == newItem || exists k :: 0 <= k < step && k < |schedule| && schedule[k] == Some(elem)
              {
                Interfere(schedule, step);
                step := step + 1;
                var polled := elem;
                loads := loads + 1;
                if polled.state == Busy {
                  elem := Item(None, Empty);
                  return Ok(polled.value), loads;
                }
                j := j + 1;
              }
              elem := oldItem;
              return Err(IterationsExceeded), loads;
            }
          case Waiting =>
            var newItem := Item(value, Busy);
            if Complementary(current.value, value) {
              Interfere(schedule, step);
              step := step + 1;
              var swapped := CompareAndSwap(current, newItem);
              if swapped {
                return Ok(current.value), loads;
              }
            }
          case Busy =>
            // An exchange is being completed here: this round is consumed.
        }
        i := i + 1;
      }
      return Err(IterationsExceeded), loads;
    }
  }

  /** With no other party, an exchange on an empty slot always fails and leaves the slot empty. */
  method ExchangeAlone<T(==)>(value: Option<T>, replays: int) returns (r: Result<Option<T>>, slot: Slot<T>)
    ensures r == Err(IterationsExceeded)
    ensures slot.elem == Item(None, Empty)
  {
    slot := new Slot<T>();
    ghost var loads;
    r, loads := slot.Exchange(value, replays, []);
  }
}
