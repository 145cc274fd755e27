/** Optional values; a `None` stands for a nil pointer of the Go code. */
module Wrappers {
  datatype Option<T> = None | Some(value: T)
}

/**
 * What the three stack packages share: the error taxonomy of the stack
 * package, the result shapes of its methods, and the immutable list cell.
 */
module Stacks {

  /** The error strings of the stack package, plus the exchanger's timeout message. */
  datatype Error =
    | EmptyStack                // "Stack is already empty."
    | NilReceiver               // "The consistentStack pointer is nil."
    | UnsuccessfulPrimitivePop  // "Failed to remove element: trying to find a complementary operation."
    | IterationsExceeded        // "The allowed number of iterations has been exceeded."

  /** A `(T, error)` pair of the Go code: a value, or an error (the zero value that goes with it is not modelled). */
  datatype Result<T> = Ok(value: T) | Err(error: Error)

  /** A lone Go `error`: nil, or an error. */
  datatype Outcome = Pass | Fail(error: Error)

  /**
   * A list cell. Its value and successor are fixed when it is built, so they
   * are `const`; `content` is the ghost list of values from this cell down.
   */
  class Cell<T> {
    const value: T
    const next: Cell?<T>
    ghost const content: seq<T>

    ghost predicate Valid()
      decreases |content|
    {
      && content == [value] + (if next == null then [] else next.content)
      && (next != null ==> next.Valid())
    }

    constructor (value: T, next: Cell?<T>)
      ensures this.value == value && this.next == next
      ensures content == [value] + Chain(next)
      ensures ValidChain(next) ==> Valid()
    {
      this.value := value;
      this.next := next;
      this.content := [value] + Chain(next);
    }
  }

  /** The values reachable from `top`, most recently pushed first. */
  ghost function Chain<T>(top: Cell?<T>): seq<T> {
    if top == null then [] else top.content
  }

  ghost predicate ValidChain<T>(top: Cell?<T>) {
    top == null || top.Valid()
  }

  /**
   * What the `attempt`-th Load of `top` returns in a retry loop: one of the
   * `stale` cells (a value of `top` that another thread has since replaced)
   * while they last, then the current `top`.
   */
  function Snapshot<T>(stale: seq<Cell?<T>>, attempt: nat, top: Cell?<T>): Cell?<T> {
    if attempt < |stale| then stale[attempt] else top
  }

  /** Following `next` from a valid cell gives the tail of its contents. */
  lemma ChainStep<T>(c: Cell<T>)
    requires c.Valid()
    ensures ValidChain(c.next)
    ensures Chain(c) == [c.value] + Chain(c.next)
  {
  }

  /**
   * The counting walk of every stack's `Len`: follows `next` from `top`
   * until nil, counting the cells it passes.
   */
  method CountCells<T>(top: Cell?<T>) returns (size: nat)
    requires ValidChain(top)
    ensures size == |Chain(top)|
  {
    size := 0;
    var current := top;
    while current != null
      invariant ValidChain(current)
      invariant size + |Chain(current)| == |Chain(top)|
      decreases |Chain(current)|
    {
      ChainStep(current);
      size := size + 1;
      current := current.next;
    }
  }
}
