/**
 * The fine-grained tree: hand-over-hand locking down the search path. With
 * the locks dropped, `findWithParent` is a plain descent and each public
 * operation one sequential step over the heap nodes.
 */
module FineGrainedTree {
  import opened Wrappers
  import opened Bst
  import opened BstNodes
  import opened SearchPaths
  import opened Relinking

  class FineGrainedSyncTree<V> {
    var root: Node?<V>
    ghost var Repr: set<object>

    ghost predicate Valid()
      reads this, Repr
    {
      && this in Repr
      && (root != null ==> root in Repr && root.Repr <= Repr && this !in root.Repr && root.Valid())
    }

    /** The tree the heap stands for. */
    ghost function Model(): Tree<V>
      reads this, root
    {
      ModelOf(root)
    }

    /** FreshFineGrainedSyncTree: an empty tree. */
    constructor ()
      ensures Valid() && fresh(Repr) && Model() == Nil
    {
      root := null;
      Repr := {this};
    }

    /**
     * findWithParent: descend from the root, left below a larger key and right
     * otherwise, until the key or a nil child is reached. `current` is the
     * node holding the key (or nil) and `parent` the last node passed (nil
     * when the search stopped at the root); the ghost outputs are the walk.
     */
    method FindWithParent(key: int) returns (current: Node?<V>, parent: Node?<V>,
                                             ghost path: seq<Node<V>>, ghost ctx: seq<Frame<V>>, ghost others: seq<Node?<V>>)
      requires Valid()
      ensures FoundWithParent(root, current, parent, key, path, ctx, others)
      ensures Model() == Plug(ctx, ModelOf(current))
    {
      parent := null;
      current := root;
      path, ctx, others := [], [], [];
      while current != null && current.key != key
        invariant ValidOrNull(root)
        invariant Spine(path, current, ctx, others, ReprOf(root))
        invariant SearchContext(ctx, key)
        invariant parent == (if path == [] then null else path[|path| - 1])
        invariant if path == [] then root == current else root == path[0]
        invariant Model() == Plug(ctx, ModelOf(current))
        decreases ReprOf(current)
      {
        SearchStep(path, current, ctx, others, ReprOf(root), key);
        var goLeft := key < current.key;
        var child := if goLeft then current.left else current.right;
        ghost var other := if goLeft then current.right else current.left;
        path, ctx, others := path + [current], ctx + [Frame(goLeft, current.key, current.value, ModelOf(other))], others + [other];
        parent := current;
        current := child;
      }
    }

    /** Find: the value stored under `key`, if any. */
    method Find(key: int) returns (r: Option<V>)
      requires Valid()
      ensures r == Lookup(Model(), key)
    {
      var node, parent;
      ghost var path, ctx, others;
      node, parent, path, ctx, others := FindWithParent(key);
      LookupPlug(ctx, ModelOf(node), key);
      if node == null {
        return None;
      }
      return Some(node.value);
    }

    /**
     * Insert: overwrite the value of the found node, or hang a new leaf below
     * the parent; a first key becomes the root. `root` is reassigned from the
     * root InsertAt hands back, which differs from the old one only when the
     * tree was empty.
     */
    method Insert(key: int, value: V)
      requires Valid()
      modifies Repr
      ensures Valid() && fresh(Repr - old(Repr))
      ensures Model() == Bst.Insert(old(Model()), key, value)
    {
      var node, parent;
      ghost var path, ctx, others;
      node, parent, path, ctx, others := FindWithParent(key);
      var newRoot := InsertAt(root, node, parent, key, value, path, ctx, others);
      root := newRoot;
      Repr := Repr + root.Repr;
    }

    /**
     * Remove: false for an absent key; a found node with fewer than two
     * children is replaced by its child, and one with two children takes its
     * successor's entry. On a valid tree the key is gone, every other key
     * keeps its value and one node fewer remains.
     */
    method Remove(key: int) returns (removed: bool)
      requires Valid()
      modifies Repr
      ensures Valid()
      ensures Model() == Bst.Remove(old(Model()), key)
      ensures removed == Lookup(old(Model()), key).Some?
      ensures Bst.IsValid(old(Model())) ==>
        && Bst.IsValid(Model())
        && Keys(Model()) == Keys(old(Model())) - {key}
        && Size(Model()) == (if removed then Size(old(Model())) - 1 else Size(old(Model())))
        && forall x :: Lookup(Model(), x) == if x == key then None else Lookup(old(Model()), x)
    {
      if Bst.IsValid(Model()) {
        RemoveCorrect(Model(), key);
        LookupIffKey(Model(), key);
      }
      var node, parent;
      ghost var path, ctx, others;
      node, parent, path, ctx, others := FindWithParent(key);
      var newRoot;
      newRoot, removed := RemoveAt(root, node, parent, key, path, ctx, others);
      root := newRoot;
    }

    /** CountNodes */
    function CountNodes(): (count: nat)
      requires Valid()
      reads this, Repr
      ensures count == Size(Model())
    {
      CountFrom(root)
    }

    /** IsValid */
    function IsValid(): (valid: bool)
      requires Valid()
      reads this, Repr
      ensures valid == Bst.IsValid(Model())
    {
      IsValidFrom(root, None, None)
    }
  }
}
