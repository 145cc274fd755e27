/**
 * The coarse-grained tree: one mutex around the whole tree, recursive helpers
 * underneath. With the lock dropped, each public operation is one sequential
 * step over the heap nodes.
 */
module CoarseGrainedTree {
  import opened Wrappers
  import opened Bst
  import opened BstNodes

  class CoarseGrainedSyncTree<V> {
    var root: Node?<V>
    ghost var Repr: set<object>

    ghost predicate Valid()
      reads this, Repr
    {
      && this in Repr
      && (root != null ==> root in Repr && root.Repr <= Repr && this !in root.Repr && root.Valid())
    }

    /** The tree the heap stands for. */
    ghost function Model(): Tree<V>
      reads this, root
    {
      ModelOf(root)
    }

    /** FreshCoarseGrainedSyncTree: an empty tree. */
    constructor ()
      ensures Valid() && fresh(Repr) && Model() == Nil
    {
      root := null;
      Repr := {this};
    }

    /** Insert: a first key becomes the root; otherwise the recursive insert below the root. */
    method Insert(key: int, value: V)
      requires Valid()
      modifies Repr
      ensures Valid() && fresh(Repr - old(Repr))
      ensures Model() == Bst.Insert(old(Model()), key, value)
    {
      if root == null {
        root := new Node(key, value);
        Repr := Repr + root.Repr;
        return;
      }
      InsertRecursive(root, key, value);
      Repr := Repr + root.Repr;
    }

    /** insertRecursive: hang a new leaf where the search falls off, or overwrite the value of an equal key. */
    method InsertRecursive(node: Node<V>, key: int, value: V)
      requires node.Valid()
      modifies node.Repr
      ensures node.Valid() && fresh(node.Repr - old(node.Repr))
      ensures node.model == Bst.Insert(old(node.model), key, value)
      decreases node.Repr, 1
    {
      if key < node.key {
        InsertLeft(node, key, value);
      } else if key > node.key {
        InsertRight(node, key, value);
      } else {
        node.value := value;
        node.model := Tree.Node(ModelOf(node.left), node.key, node.value, ModelOf(node.right));
      }
    }

    /** The smaller-key branch of insertRecursive: a new left leaf, or the insert continues on the left. */
    method InsertLeft(node: Node<V>, key: int, value: V)
      requires node.Valid()
      modifies node.Repr
      ensures node.Valid() && fresh(node.Repr - old(node.Repr))
      ensures node.model == Tree.Node(Bst.Insert(old(ModelOf(node.left)), key, value), old(node.key), old(node.value), old(ModelOf(node.right)))
      decreases node.Repr, 0
    {
      assert ValidOrNull(node.right);
      if node.left == null {
        node.left := new Node(key, value);
      } else {
        InsertRecursive(node.left, key, value);
      }
      node.Repr := node.Repr + node.left.Repr;
      node.model := Tree.Node(node.left.model, node.key, node.value, ModelOf(node.right));
    }

    /** The larger-key branch of insertRecursive: a new right leaf, or the insert continues on the right. */
    method InsertRight(node: Node<V>, key: int, value: V)
      requires node.Valid()
      modifies node.Repr
      ensures node.Valid() && fresh(node.Repr - old(node.Repr))
      ensures node.model == Tree.Node(old(ModelOf(node.left)), old(node.key), old(node.value), Bst.Insert(old(ModelOf(node.right)), key, value))
      decreases node.Repr, 0
    {
      assert ValidOrNull(node.left);
      if node.right == null {
        node.right := new Node(key, value);
      } else {
        InsertRecursive(node.right, key, value);
      }
      node.Repr := node.Repr + node.right.Repr;
      node.model := Tree.Node(ModelOf(node.left), node.key, node.value, node.right.model);
    }

    /** Find: the value stored under `key`, if any. */
    function Find(key: int): (r: Option<V>)
      requires Valid()
      reads this, Repr
      ensures r == Lookup(Model(), key)
    {
      FindFrom(root, key)
    }

    /**
     * Remove, as written: the subtree returned by `removeRecursive` is
     * dropped, so `root` is never reassigned.
     */
    method Remove(key: int) returns (removed: bool)
      requires Valid()
      modifies Repr
      ensures Valid()
      ensures removed == Lookup(old(Model()), key).Some?
      ensures Model() == RemoveDiscardingRoot(old(Model()), key)
    {
      RemoveRecFound(Model(), key);
      var _, found := RemoveRecursive(root, key);
      removed := found;
    }

    /**
     * Remove with the returned subtree stored back into `root`, as the other
     * two trees do: on a valid tree the key is gone, every other key keeps its
   * value and one node fewer remains.
     */
    method RemoveRelinkingRoot(key: int) returns (removed: bool)
      requires Valid()
      modifies Repr
      ensures Valid()
      ensures Model() == RemoveRec(old(Model()), key).0
      ensures removed == Lookup(old(Model()), key).Some?
      ensures Bst.IsValid(old(Model())) ==>
        && Bst.IsValid(Model())
        && Keys(Model()) == Keys(old(Model())) - {key}
        && Size(Model()) == (if removed then Size(old(Model())) - 1 else Size(old(Model())))
        && forall x :: Lookup(Model(), x) == if x == key then None else Lookup(old(Model()), x)
    {
      RemoveRecFound(Model(), key);
      if Bst.IsValid(Model()) {
        RemoveRecCorrect(Model(), key);
        LookupIffKey(Model(), key);
      }
      var newRoot, found := RemoveRecursive(root, key);
      root := newRoot;
      removed := found;
    }

    /**
     * removeRecursive: the new subtree and whether the key was found. A node
     * with fewer than two children is replaced by its child and left as it
     * was; every other node is updated in place and returned.
     */
    method RemoveRecursive(node: Node?<V>, key: int) returns (newNode: Node?<V>, removed: bool)
      requires ValidOrNull(node)
      modifies ReprOf(node)
      ensures ValidOrNull(newNode) && ReprOf(newNode) <= old(ReprOf(node))
      ensures ModelOf(newNode) == RemoveRec(old(ModelOf(node)), key).0
      ensures removed == RemoveRec(old(ModelOf(node)), key).1
      ensures node != null && old(node.key) == key && (old(node.left) == null || old(node.right) == null) ==>
        node.Valid() && node.Repr == old(node.Repr) && node.model == old(node.model)
      ensures node != null && !(old(node.key) == key && (old(node.left) == null || old(node.right) == null)) ==>
        newNode == node
      decreases ReprOf(node), 3
    {
      if node == null {
        return null, false;
      }
      assert node.model == Tree.Node(ModelOf(node.left), node.key, node.value, ModelOf(node.right));
      if key < node.key {
        removed := RemoveLeft(node, key);
        return node, removed;
      } else if key > node.key {
        removed := RemoveRight(node, key);
        return node, removed;
      } else {
        newNode := RemoveFound(node);
        return newNode, true;
      }
    }

    /** `node.left = removeRecursive(node.left, key)`, with the node's model brought up to date. */
    method RemoveLeft(node: Node<V>, key: int) returns (removed: bool)
      requires node.Valid()
      modifies node.Repr
      ensures node.Valid() && node.Repr <= old(node.Repr)
      ensures node.model == Tree.Node(RemoveRec(old(ModelOf(node.left)), key).0, old(node.key), old(node.value), old(ModelOf(node.right)))
      ensures removed == RemoveRec(old(ModelOf(node.left)), key).1
      decreases node.Repr, 0
    {
      assert ValidOrNull(node.right);
      var subtree, found := RemoveRecursive(node.left, key);
      node.left := subtree;
      node.model := Tree.Node(ModelOf(subtree), node.key, node.value, ModelOf(node.right));
      removed := found;
    }

    /** `node.right = removeRecursive(node.right, key)`, with the node's model brought up to date. */
    method RemoveRight(node: Node<V>, key: int) returns (removed: bool)
      requires node.Valid()
      modifies node.Repr
      ensures node.Valid() && node.Repr <= old(node.Repr)
      ensures node.model == Tree.Node(old(ModelOf(node.left)), old(node.key), old(node.value), RemoveRec(old(ModelOf(node.right)), key).0)
      ensures removed == RemoveRec(old(ModelOf(node.right)), key).1
      decreases node.Repr, 0
    {
      assert ValidOrNull(node.left);
      var subtree, found := RemoveRecursive(node.right, key);
      node.right := subtree;
      node.model := Tree.Node(ModelOf(node.left), node.key, node.value, ModelOf(subtree));
      removed := found;
    }

    /**
     * The found-key branch of removeRecursive: a node with fewer than two
     * children gives way to its child; otherwise it takes the in-order
     * successor's entry, which is then removed from the right subtree.
     */
    method RemoveFound(node: Node<V>) returns (newNode: Node?<V>)
      requires node.Valid()
      modifies node.Repr
      ensures ValidOrNull(newNode) && ReprOf(newNode) <= old(node.Repr)
      ensures ModelOf(newNode) == RemoveRec(old(node.model), old(node.key)).0
      ensures old(node.left) == null || old(node.right) == null ==>
        node.Valid() && node.Repr == old(node.Repr) && node.model == old(node.model)
      ensures old(node.left) != null && old(node.right) != null ==> newNode == node
      decreases node.Repr, 2
    {
      if node.left == null {
        return node.right;
      } else if node.right == null {
        return node.left;
      }
      ghost var t := node.model;
      assert t.left.Node? && t.right.Node? && t.right == node.right.model;
      var successor := MinValueNode(node.right);
      node.key := successor.key;
      node.value := successor.value;
      node.model := Tree.Node(t.left, node.key, node.value, t.right);
      assert node.Valid();
      var _ := RemoveRight(node, successor.key);
      return node;
    }

    /** minValueNode: follow left children to the node with the smallest entry. */
    method MinValueNode(node: Node<V>) returns (current: Node<V>)
      requires node.Valid()
      ensures (current.key, current.value) == MinEntry(node.model)
    {
      current := node;
      while current.left != null
        invariant current in node.Repr && current.Repr <= node.Repr && current.Valid()
        invariant MinEntry(node.model) == MinEntry(current.model)
        decreases current.Repr
      {
        current := current.left;
      }
    }

    /** CountNodes */
    function CountNodes(): (count: nat)
      requires Valid()
      reads this, Repr
      ensures count == Size(Model())
    {
      CountFrom(root)
    }

    /** IsValid */
    function IsValid(): (valid: bool)
      requires Valid()
      reads this, Repr
      ensures valid == Bst.IsValid(Model())
    {
      IsValidFrom(root, None, None)
    }
  }

  /** findRecursive */
  function FindFrom<V>(n: Node?<V>, key: int): (r: Option<V>)
    requires ValidOrNull(n)
    reads n, ReprOf(n)
    decreases ReprOf(n)
    ensures r == Lookup(ModelOf(n), key)
  {
    if n == null then None
    else if key < n.key then FindFrom(n.left, key)
    else if key > n.key then FindFrom(n.right, key)
    else Some(n.value)
  }

  /**
   * The defect of Remove on a concrete tree: the sole key is reported
   * removed and is still found afterwards.
   */
  method RemoveSoleKey() returns (removed: bool, after: Option<int>)
    ensures removed && after == Some(7)
  {
    var tree := new CoarseGrainedSyncTree<int>();
    tree.Insert(5, 7);
    removed := tree.Remove(5);
    after := tree.Find(5);
  }

  /** With the root relinked, the same sequence leaves the key absent. */
  method RemoveSoleKeyRelinked() returns (removed: bool, after: Option<int>)
    ensures removed && after == None
  {
    var tree := new CoarseGrainedSyncTree<int>();
    tree.Insert(5, 7);
    removed := tree.RemoveRelinkingRoot(5);
    after := tree.Find(5);
  }
}
