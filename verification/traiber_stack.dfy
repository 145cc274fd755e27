/**
 * The lock-free (Treiber) stack: `Push` and `Pop` are retry loops of a Load
 * of `top` followed by a compare-and-swap on `top`.
 *
 * Each atomic step is one indivisible step of the model. Other threads are
 * represented by `stale`: the first `|stale|` Loads of `top` return these
 * out-of-date cells (values that another thread has since replaced), after
 * which a Load returns the current `top`.
 */
module TraiberStack {
  import opened Wrappers
  import opened Stacks

  class Stack<T> {
    var top: Cell?<T>

    ghost predicate Valid()
      reads this
    {
      ValidChain(top)
    }

    ghost function Contents(): seq<T>
      reads this
    {
      Chain(top)
    }

    /** FreshTraiberStack */
    constructor ()
      ensures Valid() && Contents() == []
    {
      top := null;
    }

    /** `top.CompareAndSwap(expected, desired)`: swaps exactly when `top` still is `expected`. */
    method CompareAndSwapTop(expected: Cell?<T>, desired: Cell?<T>) returns (swapped: bool)
      modifies this
      ensures swapped == (old(top) == expected)
      ensures top == if swapped then desired else old(top)
    {
      swapped := top == expected;
      if swapped {
        top := desired;
      }
    }
  }

  method Peek<T>(stack: Stack?<T>) returns (r: Result<T>)
    requires stack != null ==> stack.Valid()
    ensures stack == null ==> r == Err(NilReceiver)
    ensures stack != null && stack.Contents() == [] ==> r == Err(EmptyStack)
    ensures stack != null && stack.Contents() != [] ==> r == Ok(stack.Contents()[0])
  {
    if stack == null {
      return Err(NilReceiver);
    }
    if stack.top == null {
      return Err(EmptyStack);
    }
    return Ok(stack.top.value);
  }

  method Push<T>(stack: Stack?<T>, value: T, stale: seq<Cell?<T>>) returns (err: Outcome)
    requires stack != null ==> stack.Valid()
    modifies stack
    ensures stack == null ==> err == Fail(NilReceiver)
    ensures stack != null ==> err == Pass && stack.Valid()
    ensures stack != null ==> stack.Contents() == [value] + old(stack.Contents())
  {
    if stack == null {
      return Fail(NilReceiver);
    }
    var attempt := 0;
    while true
      invariant attempt <= |stale|
      invariant stack.top == old(stack.top)
      decreases |stale| - attempt
    {
      // `top.Load()`: a stale cell while `stale` lasts, then the current top.
      var oldTop := if attempt < |stale| then stale[attempt] else stack.top;
      var newTop := new Cell(value, oldTop);
      var swapped := stack.CompareAndSwapTop(oldTop, newTop);
      if swapped {
        return Pass;
      }
      // A failed compare-and-swap means the Load was stale: retry.
      attempt := attempt + 1;
    }
  }

  /** Pop has no nil check in the source: a nil receiver would be dereferenced. */
  method Pop<T>(stack: Stack?<T>, stale: seq<Cell?<T>>) returns (r: Result<T>)
    requires stack != null && stack.Valid()
    modifies stack
    ensures stack.Valid()
    ensures r.Err? ==> r.error == EmptyStack && stack.top == old(stack.top)
    ensures r.Err? && stale == [] ==> old(stack.Contents()) == []
    // EmptyStack only from a nil Load: the stack was empty or a stale Load saw nil.
    ensures r.Err? ==> old(stack.Contents()) == [] || null in stale
    ensures old(stack.Contents()) == [] ==> r == Err(EmptyStack)
    ensures r.Ok? ==> old(stack.Contents()) != [] && r.value == old(stack.Contents())[0]
    ensures r.Ok? ==> stack.Contents() == old(stack.Contents())[1..]
  {
    var attempt := 0;
    while true
      invariant attempt <= |stale|
      invariant stack.top == old(stack.top)
      invariant forall k :: 0 <= k < attempt ==> stale[k] != null
      decreases |stale| - attempt
    {
      // `top.Load()`: a stale cell while `stale` lasts, then the current top.
      var oldTop := if attempt < |stale| then stale[attempt] else stack.top;
      if oldTop == null {
        return Err(EmptyStack);
      }
      var newTop := oldTop.next;
      var swapped := stack.CompareAndSwapTop(oldTop, newTop);
      if swapped {
        ChainStep(oldTop);
        return Ok(oldTop.value);
      }
      attempt := attempt + 1;
    }
  }

  method Len<T>(stack: Stack?<T>) returns (r: Result<int>)
    requires stack != null ==> stack.Valid()
    ensures stack == null ==> r == Err(NilReceiver)
    ensures stack != null ==> r == Ok(|stack.Contents()|)
  {
    if stack == null {
      return Err(NilReceiver);
    }
    var size := CountCells(stack.top);
    return Ok(size);
  }

  /** Push 1, 2, 3 and pop once, with no interference: the next pop yields 2. */
  method PushThreePopTwice() returns (second: Result<int>)
    ensures second == Ok(2)
  {
    var stack := new Stack<int>();
    var _ := Push(stack, 1, []);
    var _ := Push(stack, 2, []);
    var _ := Push(stack, 3, []);
    var first := Pop(stack, []);
    second := Pop(stack, []);
  }

  /** `n` pushes then `n` pops, with no interference, leave a stack whose next pop reports emptiness. */
  method PushThenPopAll(n: nat) returns (last: Result<int>)
    ensures last == Err(EmptyStack)
  {
    var stack := new Stack<int>();
    var i := 0;
    while i < n
      invariant 0 <= i <= n
      invariant stack.Valid() && |stack.Contents()| == i
    {
      var _ := Push(stack, i, []);
      i := i + 1;
    }
    i := 0;
    while i < n
      invariant 0 <= i <= n
      invariant stack.Valid() && |stack.Contents()| == n - i
    {
      var _ := Pop(stack, []);
      i := i + 1;
    }
    last := Pop(stack, []);
  }
}
