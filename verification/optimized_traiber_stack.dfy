/**
 * The elimination-backoff stack: a Treiber stack whose `Push` and `Pop` make
 * one compare-and-swap attempt on `top` and, when it loses, try to meet a
 * complementary operation in the exchanger array before retrying.
 *
 * As in the plain Treiber stack, `stale` holds the out-of-date results of
 * the first Loads of `top` (one per attempt), standing for other threads'
 * writes; the exchanger array is visited with no other party acting on it.
 */
module OptimizedTraiberStack {
  import opened Wrappers
  import opened Stacks
  import opened Exchanger
  import opened EliminationArray

  class Stack<T(==)> {
    var top: Cell?<T>
    const exchangerArray: ExchangersArray<T>

    ghost predicate Valid()
      reads this, exchangerArray.exchangers
    {
      ValidChain(top) && exchangerArray.Valid() && exchangerArray.power > 0
    }

    ghost function Contents(): seq<T>
      reads this
    {
      Chain(top)
    }

    /** FreshOptimizedTraiberStack: empty, with 10 exchanger slots and a budget of 500 rounds. */
    constructor ()
      ensures Valid() && Contents() == []
      ensures exchangerArray.power == 10 && exchangerArray.replays == 500
      ensures fresh(exchangerArray) && fresh(exchangerArray.exchangers) && fresh(exchangerArray.Slots())
      ensures forall i :: 0 <= i < 10 ==> exchangerArray.exchangers[i].elem == Item(None, Empty)
    {
      top := null;
      exchangerArray := new ExchangersArray(10, 500);
    }

    method CompareAndSwapTop(expected: Cell?<T>, desired: Cell?<T>) returns (swapped: bool)
      modifies this
      ensures swapped == (old(top) == expected)
      ensures top == if swapped then desired else old(top)
    {
      swapped := top == expected;
      if swapped {
        top := desired;
      }
    }

    /** primitePush: one Load of `top` (the `attempt`-th) and one compare-and-swap. */
    method PrimitivePush(value: T, stale: seq<Cell?<T>>, attempt: nat) returns (pushed: bool)
      requires Valid()
      modifies this
      ensures Valid()
      ensures pushed == (Snapshot(stale, attempt, old(top)) == old(top))
      ensures pushed ==> Contents() == [value] + old(Contents())
      ensures !pushed ==> top == old(top)
    {
      var oldTop := if attempt < |stale| then stale[attempt] else top;
      var newTop := new Cell(value, oldTop);
      pushed := CompareAndSwapTop(oldTop, newTop);
    }

    /**
     * primitivePop: an empty snapshot is emptiness; a lost compare-and-swap
     * is contention, reported distinctly so that the caller does not take it
     * for emptiness.
     */
    method PrimitivePop(stale: seq<Cell?<T>>, attempt: nat) returns (r: Result<T>)
      requires Valid()
      modifies this
      ensures Valid()
      ensures Snapshot(stale, attempt, old(top)) == null ==> r == Err(EmptyStack) && top == old(top)
      ensures Snapshot(stale, attempt, old(top)) != null && Snapshot(stale, attempt, old(top)) != old(top) ==>
        r == Err(UnsuccessfulPrimitivePop) && top == old(top)
      ensures Snapshot(stale, attempt, old(top)) != null && Snapshot(stale, attempt, old(top)) == old(top) ==>
        old(Contents()) != [] && r == Ok(old(Contents())[0]) && Contents() == old(Contents())[1..]
    {
      var oldTop := if attempt < |stale| then stale[attempt] else top;
      if oldTop == null {
        return Err(EmptyStack);
      }
      var newTop := oldTop.next;
      var swapped := CompareAndSwapTop(oldTop, newTop);
      if swapped {
        ChainStep(oldTop);
        return Ok(oldTop.value);
      }
      return Err(UnsuccessfulPrimitivePop);
    }
  }

  method Peek<T(==)>(stack: Stack?<T>) returns (r: Result<T>)
    requires stack != null ==> stack.Valid()
    ensures stack == null ==> r == Err(NilReceiver)
    ensures stack != null && stack.Contents() == [] ==> r == Err(EmptyStack)
    ensures stack != null && stack.Contents() != [] ==> r == Ok(stack.Contents()[0])
  {
    if stack == null {
      return Err(NilReceiver);
    }
    if stack.top == null {
      return Err(EmptyStack);
    }
    return Ok(stack.top.value);
  }

  /**
   * Push always succeeds on a stack: either the value is linked on top, or it
   * is handed to a pop waiting in some exchanger slot and the list is untouched.
   */
  method Push<T(==)>(stack: Stack?<T>, value: T, stale: seq<Cell?<T>>) returns (err: Outcome)
    requires stack != null ==> stack.Valid()
    modifies stack, if stack == null then {} else stack.exchangerArray.Slots()
    ensures stack == null ==> err == Fail(NilReceiver)
    ensures stack != null ==> err == Pass && stack.Valid()
    ensures stack != null ==>
      || (stack.Contents() == [value] + old(stack.Contents()) && stack.exchangerArray.Unchanged())
      || (stack.top == old(stack.top) && exists i :: stack.exchangerArray.Eliminated(i, Some(value), None))
    ensures stack != null && stale == [] ==>
      stack.Contents() == [value] + old(stack.Contents()) && stack.exchangerArray.Unchanged()
  {
    if stack == null {
      return Fail(NilReceiver);
    }
    var attempt := 0;
    while true
      invariant attempt <= |stale|
      invariant stack.Valid() && stack.top == old(stack.top)
      invariant stack.exchangerArray.Unchanged()
      decreases |stale| - attempt
    {
      var pushed := stack.PrimitivePush(value, stale, attempt);
      if pushed {
        return Pass;
      }
      // Contention: offer the value to a waiting pop instead.
      var exchanged;
      ghost var index;
      exchanged, index := stack.exchangerArray.Visit(Some(value));
      if exchanged.Ok? {
        assert stack.exchangerArray.Eliminated(index, Some(value), None);
        return Pass;
      }
      attempt := attempt + 1;
    }
  }

  /**
   * Pop never reports contention or an exchange timeout: it returns the top
   * value, a value received from a waiting push, or emptiness. Emptiness is
   * reported only from an empty snapshot, and then nothing has changed.
   * Pop has no nil check in the source: a nil receiver would be dereferenced.
   */
  method Pop<T(==)>(stack: Stack?<T>, stale: seq<Cell?<T>>) returns (r: Result<T>)
    requires stack != null && stack.Valid()
    modifies stack, stack.exchangerArray.Slots()
    ensures stack.Valid()
    ensures r.Err? ==> r.error == EmptyStack && stack.top == old(stack.top) && stack.exchangerArray.Unchanged()
    ensures r.Err? ==> old(stack.Contents()) == [] || null in stale
    ensures old(stack.Contents()) == [] && stale == [] ==> r == Err(EmptyStack)
    ensures r.Ok? ==>
      || (old(stack.Contents()) != [] && r.value == old(stack.Contents())[0]
          && stack.Contents() == old(stack.Contents())[1..] && stack.exchangerArray.Unchanged())
      || (stack.top == old(stack.top) && exists i :: stack.exchangerArray.Eliminated(i, None, Some(r.value)))
    ensures stale == [] && old(stack.Contents()) != [] ==>
      r == Ok(old(stack.Contents())[0]) && stack.Contents() == old(stack.Contents())[1..]
  {
    var attempt := 0;
    while true
      invariant attempt <= |stale|
      invariant stack.Valid() && stack.top == old(stack.top)
      invariant stack.exchangerArray.Unchanged()
      invariant forall k :: 0 <= k < attempt ==> stale[k] != null
      decreases |stale| - attempt
    {
      var value := stack.PrimitivePop(stale, attempt);
      if value.Ok? {
        return value;
      }
      if value.error == UnsuccessfulPrimitivePop {
        // Contention: ask a waiting push for its value instead.
        var element;
        ghost var index;
        element, index := stack.exchangerArray.Visit(None);
        if element.Ok? {
          assert stack.exchangerArray.Eliminated(index, None, element.value);
          return Ok(element.value.value);
        }
      } else {
        return Err(value.error);
      }
      attempt := attempt + 1;
    }
  }

  method Len<T(==)>(stack: Stack?<T>) returns (r: Result<int>)
    requires stack != null ==> stack.Valid()
    ensures stack == null ==> r == Err(NilReceiver)
    ensures stack != null ==> r == Ok(|stack.Contents()|)
  {
    if stack == null {
      return Err(NilReceiver);
    }
    var size := CountCells(stack.top);
    return Ok(size);
  }

  /** Push 1, 2, 3 and pop once, with no interference: the next pop yields 2. */
  method PushThreePopTwice() returns (second: Result<int>)
    ensures second == Ok(2)
  {
    var stack := new Stack<int>();
    var _ := Push(stack, 1, []);
    var _ := Push(stack, 2, []);
    var _ := Push(stack, 3, []);
    var first := Pop(stack, []);
    second := Pop(stack, []);
  }

  /** `n` pushes then `n` pops, with no interference, leave a stack whose next pop reports emptiness. */
  method PushThenPopAll(n: nat) returns (last: Result<int>)
    ensures last == Err(EmptyStack)
  {
    var stack := new Stack<int>();
    var i := 0;
    while i < n
      invariant 0 <= i <= n
      invariant stack.Valid() && |stack.Contents()| == i
      invariant fresh(stack.exchangerArray.Slots())
    {
      var _ := Push(stack, i, []);
      i := i + 1;
    }
    i := 0;
    while i < n
      invariant 0 <= i <= n
      invariant stack.Valid() && |stack.Contents()| == n - i
      invariant fresh(stack.exchangerArray.Slots())
    {
      var _ := Pop(stack, []);
      i := i + 1;
    }
    last := Pop(stack, []);
  }
}
