/**
 * The part of `Insert` and `Remove` that the fine-grained and optimistic
 * trees share word for word: what they do with the node and parent that
 * `findWithParent` hands back. With the locks dropped, each is one sequential
 * update of the heap below the root.
 *
 * Every method takes the walk `findWithParent` made (ghost `path`, `ctx`,
 * `others`) and the root, and returns the root the tree is to hold
 * afterwards: the same root unless the tree was empty, or the root itself was
 * unlinked.
 */
module Relinking {
  import opened Wrappers
  import opened Bst
  import opened BstNodes
  import opened SearchPaths

  /** What `findWithParent(key)` promises about the node and parent it returns. */
  ghost predicate FoundWithParent<V>(root: Node?<V>, node: Node?<V>, parent: Node?<V>, key: int,
                                     path: seq<Node<V>>, ctx: seq<Frame<V>>, others: seq<Node?<V>>)
    reads root, ReprOf(root), path, node, ReprOf(node), others, Footprint(others)
  {
    && ValidOrNull(root)
    && Spine(path, node, ctx, others, ReprOf(root))
    && SearchContext(ctx, key)
    && (node != null ==> node.key == key)
    && parent == (if path == [] then null else path[|path| - 1])
    && (if path == [] then root == node else root == path[0])
  }

  /**
   * Insert after the search: the found node takes the new value; otherwise a
   * new leaf hangs below the parent on the side the key dictates, or becomes
   * the root of an empty tree.
   */
  method InsertAt<V>(root: Node?<V>, node: Node?<V>, parent: Node?<V>, key: int, value: V,
                     ghost path: seq<Node<V>>, ghost ctx: seq<Frame<V>>, ghost others: seq<Node?<V>>)
      returns (newRoot: Node<V>)
    requires FoundWithParent(root, node, parent, key, path, ctx, others)
    requires ModelOf(root) == Plug(ctx, ModelOf(node))
    modifies ReprOf(root)
    ensures newRoot.Valid() && fresh(newRoot.Repr - old(ReprOf(root)))
    ensures root != null ==> newRoot == root
    ensures newRoot.model == Bst.Insert(old(ModelOf(root)), key, value)
  {
    InsertPlug(ctx, ModelOf(node), key, value);
    if node != null {
      assert path == [] ==> node == root;
      SetValue(node, value, path, ctx, others, ReprOf(root));
      return root;
    }
    var newNode := new Node(key, value);
    if parent == null {
      return newNode;
    }
    Attach(parent, newNode, key, path, ctx, others, ReprOf(root));
    return root;
  }

  /** `node.value = value` at the bottom of a walk, with the ghost fields above it brought up to date. */
  method SetValue<V>(node: Node<V>, value: V, ghost path: seq<Node<V>>, ghost ctx: seq<Frame<V>>, ghost others: seq<Node?<V>>, ghost U: set<object>)
    requires Spine(path, node, ctx, others, U)
    modifies node, set i | 0 <= i < |path| :: path[i]
    ensures var top := if path == [] then node else path[0];
      && top.Valid() && top.Repr <= U
      && top.model == Plug(ctx, Bst.Insert(old(node.model), old(node.key), value))
  {
    BottomApart(path, node, ctx, others, U);
    assert node in node.Repr;
    node.value := value;
    node.model := Tree.Node(ModelOf(node.left), node.key, node.value, ModelOf(node.right));
    EntryChanged(node);
    assert node.model == Bst.Insert(old(node.model), node.key, value);

    Refresh(path, node, ctx, others, U);
  }

  /**
   * A new leaf hung below the last node of a walk that fell off the tree: on
   * the left when the key is smaller than the parent's, else on the right.
   */
  method Attach<V>(parent: Node<V>, newNode: Node<V>, key: int,
                   ghost path: seq<Node<V>>, ghost ctx: seq<Frame<V>>, ghost others: seq<Node?<V>>, ghost U: set<object>)
    requires Spine(path, null, ctx, others, U) && SearchContext(ctx, key)
    requires path != [] && parent == path[|path| - 1]
    requires newNode.Valid() && newNode.Repr == {newNode} && newNode !in U
    modifies set i | 0 <= i < |path| :: path[i]
    ensures path[0].Valid() && path[0].Repr <= U + {newNode}
    ensures path[0].model == Plug(ctx, newNode.model)
  {
    Link(parent, newNode, key < parent.key, Walk(path, null, ctx, others, U), U + {newNode});
    Refresh(path, newNode, ctx, others, U + {newNode});
  }

  /**
   * Remove after the search: nothing happens when the key is absent; a node
   * with at most one child is replaced by that child below its parent (or as
   * the root); a node with two children takes its successor's entry and the
   * successor is unlinked.
   */
  method RemoveAt<V>(root: Node?<V>, node: Node?<V>, parent: Node?<V>, key: int,
                     ghost path: seq<Node<V>>, ghost ctx: seq<Frame<V>>, ghost others: seq<Node?<V>>)
      returns (newRoot: Node?<V>, removed: bool)
    requires FoundWithParent(root, node, parent, key, path, ctx, others)
    requires ModelOf(root) == Plug(ctx, ModelOf(node))
    modifies ReprOf(root)
    ensures ValidOrNull(newRoot) && ReprOf(newRoot) <= old(ReprOf(root))
    ensures parent != null || node == null ==> newRoot == root
    ensures ModelOf(newRoot) == Bst.Remove(old(ModelOf(root)), key)
    ensures removed == Lookup(old(ModelOf(root)), key).Some?
  {
    RemovePlug(ctx, ModelOf(node), key);
    LookupPlug(ctx, ModelOf(node), key);
    if node == null {
      return root, false;
    }
    assert ValidOrNull(node.left) && ValidOrNull(node.right);
    if node.left == null && node.right == null {
      newRoot := Splice(root, node, parent, null, key, path, ctx, others);
      return newRoot, true;
    }
    if node.left == null || node.right == null {
      var child := if node.left != null then node.left else node.right;
      newRoot := Splice(root, node, parent, child, key, path, ctx, others);
      return newRoot, true;
    }
    RemoveInPlace(node, path, ctx, others, ReprOf(root));
    return root, true;
  }

  /**
   * The found node has at most one child, `child`: it takes the node's place
   * below the parent, on the side the key dictates, or becomes the root.
   */
  method Splice<V>(root: Node?<V>, node: Node<V>, parent: Node?<V>, child: Node?<V>, key: int,
                   ghost path: seq<Node<V>>, ghost ctx: seq<Frame<V>>, ghost others: seq<Node?<V>>)
      returns (newRoot: Node?<V>)
    requires FoundWithParent(root, node, parent, key, path, ctx, others)
    requires child == node.left || child == node.right
    modifies set i | 0 <= i < |path| :: path[i]
    ensures ValidOrNull(newRoot) && ReprOf(newRoot) <= old(ReprOf(root))
    ensures parent != null ==> newRoot == root
    ensures ModelOf(newRoot) == Plug(ctx, old(ModelOf(child)))
  {
    assert ValidOrNull(child);
    if parent == null {
      return child;
    }
    ghost var U := ReprOf(root);
    Link(parent, child, key < parent.key, Walk(path, node, ctx, others, U), U);
    Refresh(path, child, ctx, others, U);
    return root;
  }

  /**
   * The found node has two children and stays in place: it takes its
   * successor's entry, the successor is unlinked, and the ghost fields on
   * the path above are brought up to date.
   */
  method RemoveInPlace<V>(node: Node<V>, ghost path: seq<Node<V>>, ghost ctx: seq<Frame<V>>, ghost others: seq<Node?<V>>, ghost U: set<object>)
    requires Spine(path, node, ctx, others, U) && node.left != null && node.right != null
    modifies U
    ensures var top := if path == [] then node else path[0];
      && top.Valid() && top.Repr <= U
      && top.model == Plug(ctx, Bst.Remove(old(node.model), old(node.key)))
  {
    BottomApart(path, node, ctx, others, U);
    ghost var below := node.Repr;
    assert below <= U;
    ReplaceBySuccessor(node);
    assert Linked(path, node, ctx, others) && Hanging(ctx, others, U);
    SeparatedRebottom(path, below, node.Repr, others, U, U);
    Refresh(path, node, ctx, others, U);
  }

  /**
   * The two-children case: the successor is unlinked from the right
   * subtree and its entry moves into the node. (The source also copies the
   * entry after the unlink, but inside each of the two unlinking branches;
   * here the copy is written once, after both. The unlink writes a child link
   * and the copy writes `key` and `value`, which may be fields of the same
   * node when the successor is the node's right child, so they never
   * overwrite each other.)
   */
  method ReplaceBySuccessor<V>(node: Node<V>)
    requires node.Valid() && node.left != null && node.right != null
    modifies node.Repr
    ensures node.Valid() && node.Repr <= old(node.Repr)
    ensures node.model == Bst.Remove(old(node.model), old(node.key))
  {
    assert node.left.Valid() && node.right.Valid();
    assert node !in node.right.Repr && node.left.Repr !! node.right.Repr;
    var successor := UnlinkSuccessor(node);
    node.key := successor.key;
    node.value := successor.value;
    node.Repr := {node} + node.left.Repr + ReprOf(node.right);
    node.model := Tree.Node(node.left.model, node.key, node.value, ModelOf(node.right));
  }

  /**
   * Walk left from the right child to the successor and unlink it: from its
   * parent's left, or from the node's right when the right child has no left
   * child. The successor keeps its entry.
   */
  method UnlinkSuccessor<V>(node: Node<V>) returns (successor: Node<V>)
    requires node.Valid() && node.left != null && node.right != null
    modifies node, node.right.Repr
    ensures node.left == old(node.left) && node.key == old(node.key) && node.value == old(node.value)
    ensures node.Repr == old(node.Repr) && unchanged(old(node.left.Repr))
    ensures ValidOrNull(node.right) && ReprOf(node.right) <= old(node.right.Repr)
    ensures old(node.right.model).Node?
    ensures ModelOf(node.right) == RemoveMin(old(node.right.model))
    ensures (successor.key, successor.value) == MinEntry(old(node.right.model))
  {
    assert node.right.Valid() && node.left.Valid() && node.left.Repr !! node.right.Repr;
    ghost var R := node.right.Repr;
    var successorParent;
    ghost var sp, sctx, sothers;
    successorParent, successor, sp, sctx, sothers := FindSuccessor(node);
    LeftSpineMin(sctx, successor.key, successor.value, ModelOf(successor.right));
    assert ValidOrNull(successor.right);
    if successorParent != node {
      UnlinkBelow(successorParent, successor, sp, sctx, sothers, R);
    } else {
      successorParent.right := successor.right;
    }
  }

  /** `successorParent.left = successor.right` below the right child, with the ghost fields on the walk brought up to date. */
  method UnlinkBelow<V>(successorParent: Node<V>, successor: Node<V>,
                        ghost sp: seq<Node<V>>, ghost sctx: seq<Frame<V>>, ghost sothers: seq<Node?<V>>, ghost R: set<object>)
    requires Spine(sp, successor, sctx, sothers, R) && LeftSpine(sctx)
    requires sp != [] && successorParent == sp[|sp| - 1]
    modifies set i | 0 <= i < |sp| :: sp[i]
    ensures sp[0].Valid() && sp[0].Repr <= R
    ensures sp[0].model == Plug(sctx, old(ModelOf(successor.right)))
  {
    assert ValidOrNull(successor.right) && successor !in sp;
    Link(successorParent, successor.right, true, Walk(sp, successor, sctx, sothers, R), R);
    Refresh(sp, successor.right, sctx, sothers, R);
  }

  /** minValueNode's walk in the two-children case: follow left children from the right child. */
  method FindSuccessor<V>(node: Node<V>)
      returns (successorParent: Node<V>, successor: Node<V>,
               ghost sp: seq<Node<V>>, ghost sctx: seq<Frame<V>>, ghost sothers: seq<Node?<V>>)
    requires node.Valid() && node.right != null
    ensures successor.left == null
    ensures Spine(sp, successor, sctx, sothers, node.right.Repr) && LeftSpine(sctx)
    ensures node.right.model == Plug(sctx, successor.model)
    ensures successorParent == if sp == [] then node else sp[|sp| - 1]
    ensures if sp == [] then successor == node.right else sp[0] == node.right
  {
    assert node.right.Valid();
    successorParent := node;
    successor := node.right;
    sp, sctx, sothers := [], [], [];
    while successor.left != null
      invariant Spine(sp, successor, sctx, sothers, node.right.Repr) && LeftSpine(sctx)
      invariant node.right.model == Plug(sctx, successor.model)
      invariant successorParent == if sp == [] then node else sp[|sp| - 1]
      invariant if sp == [] then successor == node.right else sp[0] == node.right
      decreases successor.Repr
    {
      var frame := Frame(true, successor.key, successor.value, ModelOf(successor.right));
      SpineExtend(sp, successor, sctx, sothers, node.right.Repr, true);
      PlugAppend(sctx, [frame], successor.left.model);
      assert successor.left.Repr < successor.Repr;
      sp, sctx, sothers := sp + [successor], sctx + [frame], sothers + [successor.right];
      successorParent := successor;
      successor := successor.left;
    }
  }

  /**
   * Point the last node of a walk, on side `goLeft` (the side the walk
   * took), at a new bottom: a subtree of the old bottom, or a node new to
   * the universe.
   */
  method Link<V>(parent: Node<V>, bottom': Node?<V>, goLeft: bool, ghost w: Walk<V>, ghost U': set<object>)
    requires Spine(w.path, w.bottom, w.ctx, w.others, w.U) && w.path != [] && parent == w.path[|w.path| - 1]
    requires goLeft == w.ctx[|w.path| - 1].wentLeft && w.U <= U'
    requires ValidOrNull(bottom') && ReprOf(bottom') <= ReprOf(w.bottom) + (U' - w.U)
    modifies parent
    ensures Spine(w.path, bottom', w.ctx, w.others, U')
  {
    ghost var Walk(path, bottom, ctx, others, U) := w;
    ghost var m := |path| - 1;
    ghost var below := ReprOf(bottom);
    LinkedPrefix(path, bottom, ctx, others);
    PathOutsideFootprint(path, below, ctx, others, U, m);
    assert parent !in path[..m];
    assert parent !in ReprOf(bottom') by {
      assert parent in U && parent !in below;
    }
    assert parent.key == ctx[m].key && parent.value == ctx[m].value;
    assert (if goLeft then parent.right else parent.left) == others[m];
    if goLeft {
      parent.left := bottom';
    } else {
      parent.right := bottom';
    }
    assert Linked(path[..m], path[m], ctx[..m], others[..m]);
    assert Hanging(ctx, others, U);
    SeparatedFrame((path, below, others, U));
    SpineRelinked(path, bottom', ctx, others, below, U, U');
  }
}
