/**
 * The baseline, unsynchronised linked-list stack: `top` is reassigned by
 * `Push` and `Pop`, cells are never changed once built.
 */
module ConsistentStack {
  import opened Wrappers
  import opened Stacks

  class Stack<T> {
    var top: Cell?<T>

    ghost predicate Valid()
      reads this
    {
      ValidChain(top)
    }

    /** The stack's values, top first. */
    ghost function Contents(): seq<T>
      reads this
    {
      Chain(top)
    }

    /** FreshConsistentStack: a stack with no cells. */
    constructor ()
      ensures Valid() && Contents() == []
    {
      top := null;
    }
  }

  /** Peek has no nil check in the source: a nil receiver would be dereferenced. */
  method Peek<T>(stack: Stack?<T>) returns (r: Result<T>)
    requires stack != null && stack.Valid()
    ensures stack.Contents() == [] ==> r == Err(EmptyStack)
    ensures stack.Contents() != [] ==> r == Ok(stack.Contents()[0])
  {
    if stack.top == null {
      return Err(EmptyStack);
    }
    return Ok(stack.top.value);
  }

  method Push<T>(stack: Stack?<T>, value: T) returns (err: Outcome)
    requires stack != null ==> stack.Valid()
    modifies stack
    ensures stack == null ==> err == Fail(NilReceiver)
    ensures stack != null ==> err == Pass && stack.Valid()
    ensures stack != null ==> stack.Contents() == [value] + old(stack.Contents())
  {
    if stack == null {
      return Fail(NilReceiver);
    }
    var next := new Cell(value, stack.top);
    stack.top := next;
    return Pass;
  }

  method Pop<T>(stack: Stack?<T>) returns (r: Result<T>)
    requires stack != null ==> stack.Valid()
    modifies stack
    ensures stack == null ==> r == Err(NilReceiver)
    ensures stack != null ==> stack.Valid()
    ensures stack != null && old(stack.Contents()) == [] ==> r == Err(EmptyStack) && unchanged(stack)
    ensures stack != null && old(stack.Contents()) != [] ==>
      r == Ok(old(stack.Contents())[0]) && stack.Contents() == old(stack.Contents())[1..]
  {
    if stack == null {
      return Err(NilReceiver);
    }
    if stack.top == null {
      return Err(EmptyStack);
    }
    var value := stack.top.value;
    stack.top := stack.top.next;
    return Ok(value);
  }

  method Len<T>(stack: Stack?<T>) returns (r: Result<int>)
    requires stack != null ==> stack.Valid()
    ensures stack == null ==> r == Err(NilReceiver)
    ensures stack != null ==> r == Ok(|stack.Contents()|)
  {
    if stack == null {
      return Err(NilReceiver);
    }
    var size := CountCells(stack.top);
    return Ok(size);
  }

  /** Push 1, 2, 3 and pop once: the next pop yields 2. */
  method PushThreePopTwice() returns (second: Result<int>)
    ensures second == Ok(2)
  {
    var stack := new Stack<int>();
    var _ := Push(stack, 1);
    var _ := Push(stack, 2);
    var _ := Push(stack, 3);
    var first := Pop(stack);
    second := Pop(stack);
  }

  /** Pushing `n` values and popping `n` times leaves a stack whose next pop reports emptiness. */
  method PushThenPopAll(n: nat) returns (last: Result<int>)
    ensures last == Err(EmptyStack)
  {
    var stack := new Stack<int>();
    var i := 0;
    while i < n
      invariant 0 <= i <= n
      invariant stack.Valid() && |stack.Contents()| == i
    {
      var _ := Push(stack, i);
      i := i + 1;
    }
    i := 0;
    while i < n
      invariant 0 <= i <= n
      invariant stack.Valid() && |stack.Contents()| == n - i
    {
      var _ := Pop(stack);
      i := i + 1;
    }
    last := Pop(stack);
  }
}
