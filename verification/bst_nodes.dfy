/**
 * The heap node shared by the three trees (each tree package declares the
 * same `Node` struct; the fine-grained and optimistic ones add a mutex, which
 * is not modelled). `model` is the subtree the node stands for and `Repr` the
 * nodes it owns; both are ghost.
 */
module BstNodes {
  import opened Wrappers
  import opened Bst

  class Node<V> {
    var key: int
    var value: V
    var left: Node?<V>
    var right: Node?<V>
    ghost var model: Tree<V>
    ghost var Repr: set<object>

    /** The children own disjoint parts of this node's `Repr`, and `model` is read off the heap. */
    ghost predicate Valid()
      reads this, Repr
      decreases Repr
    {
      && this in Repr
      && (left != null ==> left in Repr && left.Repr <= Repr && this !in left.Repr && left.Valid())
      && (right != null ==> right in Repr && right.Repr <= Repr && this !in right.Repr && right.Valid())
      && (left != null && right != null ==> left.Repr !! right.Repr)
      && model == Tree.Node(ModelOf(left), key, value, ModelOf(right))
    }

    /** `&Node{key: key, value: value}`: a leaf. */
    constructor (key: int, value: V)
      ensures Valid() && Repr == {this}
      ensures this.key == key && this.value == value && left == null && right == null
      ensures model == Tree.Node(Nil, key, value, Nil)
    {
      this.key := key;
      this.value := value;
      left := null;
      right := null;
      model := Tree.Node(Nil, key, value, Nil);
      Repr := {this};
    }
  }

  /**
   * A node whose entry changed in place, with its children and everything
   * below them untouched, is valid again once its `model` is recomputed.
   */
  twostate lemma EntryChanged<V>(n: Node<V>)
    requires old(n.Valid())
    requires unchanged(old(n.Repr) - {n})
    requires n.left == old(n.left) && n.right == old(n.right) && n.Repr == old(n.Repr)
    requires n.model == Tree.Node(ModelOf(n.left), n.key, n.value, ModelOf(n.right))
    ensures n.Valid()
  {
    assert n.left != null ==> old(n.left.Valid()) && n.left.Repr <= old(n.Repr) - {n};
    assert n.right != null ==> old(n.right.Valid()) && n.right.Repr <= old(n.Repr) - {n};
  }

  /** The subtree a possibly-nil pointer stands for. */
  ghost function ModelOf<V>(n: Node?<V>): Tree<V>
    reads n
  {
    if n == null then Nil else n.model
  }

  ghost function ReprOf<V>(n: Node?<V>): set<object>
    reads n
  {
    if n == null then {} else n.Repr
  }

  ghost predicate ValidOrNull<V>(n: Node?<V>)
    reads n, ReprOf(n)
  {
    n == null || n.Valid()
  }

  /** countNodesRecursive: the number of nodes below a pointer. */
  function CountFrom<V>(n: Node?<V>): (count: nat)
    requires ValidOrNull(n)
    reads n, ReprOf(n)
    decreases ReprOf(n)
    ensures count == Size(ModelOf(n))
  {
    if n == null then 0 else 1 + CountFrom(n.left) + CountFrom(n.right)
  }

  /**
   * isValidBSTRecursive: `min` and `max` are the optional exclusive bounds
   * (nil pointers in the source); a key on a bound fails the check.
   */
  function IsValidFrom<V>(n: Node?<V>, min: Option<int>, max: Option<int>): (valid: bool)
    requires ValidOrNull(n)
    reads n, ReprOf(n)
    decreases ReprOf(n)
    ensures valid == IsValidBST(ModelOf(n), min, max)
  {
    if n == null then true
    else if (min.Some? && n.key <= min.value) || (max.Some? && n.key >= max.value) then false
    else IsValidFrom(n.left, min, Some(n.key)) && IsValidFrom(n.right, Some(n.key), max)
  }
}
