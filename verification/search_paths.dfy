/**
 * What the fine-grained and optimistic trees share once their locks are
 * dropped: the search path that `findWithParent` walks, and the relinking
 * that `Insert` and `Remove` perform below it.
 *
 * A path is the sequence of nodes visited before the `bottom` pointer the
 * walk ended on. Ghost `ctx` records, per visited node, its entry, the side
 * taken and the subtree on the other side, so that the whole tree is
 * `Plug(ctx, subtree at bottom)`.
 */
module SearchPaths {
  import opened Wrappers
  import opened Bst
  import opened BstNodes

  /** The arguments of `Spine`, bundled. */
  datatype Walk<V> = Walk(path: seq<Node<V>>, bottom: Node?<V>, ctx: seq<Frame<V>>, others: seq<Node?<V>>, U: set<object>)

  /** The pointer followed from `path[i]`. */
  function Next<V>(path: seq<Node<V>>, bottom: Node?<V>, i: int): Node?<V>
    requires 0 <= i < |path|
  {
    if i + 1 < |path| then path[i + 1] else bottom
  }

  /**
   * The links of a walk: each node of `path` carries the entry recorded in
   * its frame, its child on the recorded side is the next pointer of the
   * walk, and its other child is `others[i]`.
   */
  ghost predicate Linked<V>(path: seq<Node<V>>, bottom: Node?<V>, ctx: seq<Frame<V>>, others: seq<Node?<V>>)
    reads path
  {
    && |ctx| == |path| && |others| == |path|
    && forall i :: 0 <= i < |path| ==>
         && path[i].key == ctx[i].key && path[i].value == ctx[i].value
         && (if ctx[i].wentLeft then path[i].left else path[i].right) == Next(path, bottom, i)
         && (if ctx[i].wentLeft then path[i].right else path[i].left) == others[i]
  }

  /** The nodes owned by the subtrees in `nodes`. */
  ghost function Footprint<V>(nodes: seq<Node?<V>>): set<object>
    reads nodes
  {
    set i, o | 0 <= i < |nodes| && nodes[i] != null && o in nodes[i].Repr :: o
  }

  /** The subtrees hanging off a walk are valid, lie in `U`, and match the frames. */
  ghost predicate Hanging<V>(ctx: seq<Frame<V>>, others: seq<Node?<V>>, U: set<object>)
    reads others, Footprint(others)
  {
    && |others| == |ctx|
    && forall i :: 0 <= i < |others| ==>
         if others[i] == null then ctx[i].other == Nil
         else others[i] in U && others[i].Repr <= U && others[i].Valid() && ctx[i].other == others[i].model
  }

  /**
   * The path nodes are distinct and lie in `U`; they, the subtrees hanging
   * off the path and the nodes `below` its bottom are pairwise apart.
   */
  ghost predicate Separated<V>(path: seq<Node<V>>, below: set<object>, others: seq<Node?<V>>, U: set<object>)
    reads others
  {
    && |others| == |path|
    && (forall i :: 0 <= i < |path| ==> path[i] in U)
    && (forall i, j :: 0 <= i < j < |path| ==> path[i] != path[j])
    && (forall j :: 0 <= j < |path| ==> path[j] !in below)
    && (forall i, j :: 0 <= i < |path| && 0 <= j < |path| ==> path[j] !in ReprOf(others[i]))
    && (forall i :: 0 <= i < |path| ==> ReprOf(others[i]) !! below)
    && (forall i, j :: 0 <= i < j < |path| ==> ReprOf(others[i]) !! ReprOf(others[j]))
  }

  /**
   * `path` leads to `bottom` through the sides recorded in `ctx`; the
   * subtrees beside and below it are valid, disjoint, and free of path
   * nodes. The path nodes' own ghost fields are not constrained, so that
   * they may be out of date while an update is under way.
   */
  ghost predicate Spine<V>(path: seq<Node<V>>, bottom: Node?<V>, ctx: seq<Frame<V>>, others: seq<Node?<V>>, U: set<object>)
    reads path, bottom, ReprOf(bottom), others, Footprint(others)
  {
    && Linked(path, bottom, ctx, others)
    && Hanging(ctx, others, U)
    && Separated(path, ReprOf(bottom), others, U)
    && ValidOrNull(bottom)
    && (bottom != null ==> bottom in U && bottom.Repr <= U)
  }

  /** One more step of a walk: `bottom` joins the path and its child on side `goLeft` becomes the bottom. */
  lemma SpineExtend<V>(path: seq<Node<V>>, bottom: Node<V>, ctx: seq<Frame<V>>, others: seq<Node?<V>>, U: set<object>, goLeft: bool)
    requires Spine(path, bottom, ctx, others, U)
    ensures var child := if goLeft then bottom.left else bottom.right;
            var other := if goLeft then bottom.right else bottom.left;
            var frame := Frame(goLeft, bottom.key, bottom.value, ModelOf(other));
            && Spine(path + [bottom], child, ctx + [frame], others + [other], U)
            && bottom.model == Plug([frame], ModelOf(child))
  {
    var child := if goLeft then bottom.left else bottom.right;
    var other := if goLeft then bottom.right else bottom.left;
    var frame := Frame(goLeft, bottom.key, bottom.value, ModelOf(other));
    assert bottom in bottom.Repr;
    LinkedExtend(path, bottom, ctx, others, goLeft);
    HangingExtend(ctx, others, U, bottom, frame, other);
    SeparatedExtend(path, bottom, others, U, child, other);
    assert [frame][1..] == [];
  }

  /**
   * One step of the search for `key` from a node holding another key: the
   * walk goes on, on the side the key dictates, its context is still that
   * of the search, the whole tree is unchanged, and the child owns fewer
   * nodes than the node.
   */
  lemma SearchStep<V>(path: seq<Node<V>>, bottom: Node<V>, ctx: seq<Frame<V>>, others: seq<Node?<V>>, U: set<object>, key: int)
    requires Spine(path, bottom, ctx, others, U) && SearchContext(ctx, key) && bottom.key != key
    ensures var goLeft := key < bottom.key;
            var child := if goLeft then bottom.left else bottom.right;
            var other := if goLeft then bottom.right else bottom.left;
            var frame := Frame(goLeft, bottom.key, bottom.value, ModelOf(other));
            && Spine(path + [bottom], child, ctx + [frame], others + [other], U)
            && SearchContext(ctx + [frame], key)
            && Plug(ctx + [frame], ModelOf(child)) == Plug(ctx, bottom.model)
            && ReprOf(child) < bottom.Repr
  {
    var goLeft := key < bottom.key;
    var child := if goLeft then bottom.left else bottom.right;
    var other := if goLeft then bottom.right else bottom.left;
    var frame := Frame(goLeft, bottom.key, bottom.value, ModelOf(other));
    SpineExtend(path, bottom, ctx, others, U, goLeft);
    PlugAppend(ctx, [frame], ModelOf(child));
    assert bottom in bottom.Repr && bottom !in ReprOf(child);
  }

  lemma LinkedExtend<V>(path: seq<Node<V>>, bottom: Node<V>, ctx: seq<Frame<V>>, others: seq<Node?<V>>, goLeft: bool)
    requires Linked(path, bottom, ctx, others)
    ensures var child := if goLeft then bottom.left else bottom.right;
            var other := if goLeft then bottom.right else bottom.left;
            var frame := Frame(goLeft, bottom.key, bottom.value, ModelOf(other));
            Linked(path + [bottom], child, ctx + [frame], others + [other])
  {
    var child := if goLeft then bottom.left else bottom.right;
    var path' := path + [bottom];
    forall i | 0 <= i < |path'|
      ensures Next(path', child, i) == if i < |path| then Next(path, bottom, i) else child
    {
    }
  }

  lemma HangingExtend<V>(ctx: seq<Frame<V>>, others: seq<Node?<V>>, U: set<object>, bottom: Node<V>, frame: Frame<V>, other: Node?<V>)
    requires Hanging(ctx, others, U) && bottom.Valid() && bottom.Repr <= U
    requires other == bottom.left || other == bottom.right
    requires frame.other == ModelOf(other)
    ensures Hanging(ctx + [frame], others + [other], U)
  {
    var ctx', others' := ctx + [frame], others + [other];
    forall i | 0 <= i < |others'|
      ensures others'[i] == if i < |others| then others[i] else other
      ensures ctx'[i] == if i < |others| then ctx[i] else frame
    {
    }
  }

  lemma SeparatedExtend<V>(path: seq<Node<V>>, bottom: Node<V>, others: seq<Node?<V>>, U: set<object>, child: Node?<V>, other: Node?<V>)
    requires Separated(path, ReprOf(bottom), others, U) && bottom.Valid() && bottom in U
    requires (child == bottom.left && other == bottom.right) || (child == bottom.right && other == bottom.left)
    ensures Separated(path + [bottom], ReprOf(child), others + [other], U)
  {
    var path', others' := path + [bottom], others + [other];
    var m := |path|;
    assert forall i :: 0 <= i < m ==> path'[i] == path[i] && others'[i] == others[i];
    assert path'[m] == bottom && others'[m] == other;
    assert ReprOf(child) <= bottom.Repr && ReprOf(other) <= bottom.Repr;
    assert bottom !in ReprOf(child) && bottom !in ReprOf(other);
  }

  /** Dropping the last node of a walk keeps its links, with that node as the new bottom. */
  lemma LinkedPrefix<V>(path: seq<Node<V>>, bottom: Node?<V>, ctx: seq<Frame<V>>, others: seq<Node?<V>>)
    requires Linked(path, bottom, ctx, others) && |path| > 0
    ensures Linked(path[..|path| - 1], path[|path| - 1], ctx[..|path| - 1], others[..|path| - 1])
  {
    var m := |path| - 1;
    forall i | 0 <= i < m
      ensures Next(path[..m], path[m], i) == Next(path, bottom, i)
    {
    }
  }

  /** Dropping the last node of a walk: its own subtree joins the nodes below. */
  lemma SeparatedPrefix<V>(path: seq<Node<V>>, below: set<object>, others: seq<Node?<V>>, U: set<object>)
    requires Separated(path, below, others, U) && |path| > 0
    ensures Separated(path[..|path| - 1], {path[|path| - 1]} + below + ReprOf(others[|path| - 1]), others[..|path| - 1], U)
  {
  }

  lemma HangingPrefix<V>(ctx: seq<Frame<V>>, others: seq<Node?<V>>, U: set<object>)
    requires Hanging(ctx, others, U) && |others| > 0
    ensures Hanging(ctx[..|others| - 1], others[..|others| - 1], U)
  {
  }

  /** The subtrees hanging off a walk own no node of the walk. */
  lemma PathOutsideFootprint<V>(path: seq<Node<V>>, below: set<object>, ctx: seq<Frame<V>>, others: seq<Node?<V>>, U: set<object>, j: int)
    requires Separated(path, below, others, U) && Hanging(ctx, others, U) && 0 <= j < |path|
    ensures path[j] !in Footprint(others)
    ensures path[j] !in others
  {
    forall i | 0 <= i < |others| && others[i] != null
      ensures others[i] in others[i].Repr
    {
    }
  }

  /** The last node of a walk, relinked on its recorded side to `bottom`, completes the walk again. */
  lemma LinkedLast<V>(path: seq<Node<V>>, bottom: Node?<V>, ctx: seq<Frame<V>>, others: seq<Node?<V>>)
    requires |path| > 0 && |ctx| == |path| && |others| == |path|
    requires var m := |path| - 1;
      && Linked(path[..m], path[m], ctx[..m], others[..m])
      && path[m].key == ctx[m].key && path[m].value == ctx[m].value
      && (if ctx[m].wentLeft then path[m].left else path[m].right) == bottom
      && (if ctx[m].wentLeft then path[m].right else path[m].left) == others[m]
    ensures Linked(path, bottom, ctx, others)
  {
    var m := |path| - 1;
    forall i | 0 <= i < m
      ensures Next(path[..m], path[m], i) == Next(path, bottom, i)
    {
    }
  }

  lemma HangingGrow<V>(ctx: seq<Frame<V>>, others: seq<Node?<V>>, U: set<object>, U': set<object>)
    requires Hanging(ctx, others, U) && U <= U'
    ensures Hanging(ctx, others, U')
  {
  }

  /** The walk stays separated from a new set of nodes below it that avoids the path and the side subtrees. */
  lemma SeparatedRebottom<V>(path: seq<Node<V>>, below: set<object>, below': set<object>, others: seq<Node?<V>>, U: set<object>, U': set<object>)
    requires Separated(path, below, others, U) && U <= U'
    requires forall j :: 0 <= j < |path| ==> path[j] !in below'
    requires forall i :: 0 <= i < |path| ==> ReprOf(others[i]) !! below'
    ensures Separated(path, below', others, U')
  {
  }

  /** Separation carries over to a new set below the path that adds only nodes new to the universe. */
  lemma SeparatedInto<V>(path: seq<Node<V>>, below: set<object>, below': set<object>, ctx: seq<Frame<V>>, others: seq<Node?<V>>, U: set<object>, U': set<object>)
    requires Separated(path, below, others, U) && Hanging(ctx, others, U) && U <= U'
    requires below' <= below + (U' - U)
    ensures Separated(path, below', others, U')
  {
  }

  /**
   * A walk whose last node now points, on the recorded side, at a new valid
   * bottom is whole again, when the rest of the walk still holds and the new
   * bottom owns only nodes the old one owned (`below`) or nodes new to the
   * universe `U'`.
   */
  lemma SpineRelinked<V>(path: seq<Node<V>>, bottom': Node?<V>, ctx: seq<Frame<V>>, others: seq<Node?<V>>,
                         below: set<object>, U: set<object>, U': set<object>)
    requires |path| > 0 && |ctx| == |path| && |others| == |path| && U <= U' && below <= U
    requires var m := |path| - 1;
      && Linked(path[..m], path[m], ctx[..m], others[..m])
      && path[m].key == ctx[m].key && path[m].value == ctx[m].value
      && (if ctx[m].wentLeft then path[m].left else path[m].right) == bottom'
      && (if ctx[m].wentLeft then path[m].right else path[m].left) == others[m]
    requires Hanging(ctx, others, U) && Separated(path, below, others, U)
    requires ValidOrNull(bottom') && ReprOf(bottom') <= below + (U' - U)
    ensures Spine(path, bottom', ctx, others, U')
  {
    LinkedLast(path, bottom', ctx, others);
    HangingGrow(ctx, others, U, U');
    SeparatedInto(path, below, ReprOf(bottom'), ctx, others, U, U');
  }

  /** The nodes below the bottom of a walk are apart from the path and from the subtrees beside it. */
  lemma BottomApart<V>(path: seq<Node<V>>, bottom: Node?<V>, ctx: seq<Frame<V>>, others: seq<Node?<V>>, U: set<object>)
    requires Spine(path, bottom, ctx, others, U)
    ensures forall j :: 0 <= j < |path| ==> path[j] !in ReprOf(bottom)
    ensures forall i :: 0 <= i < |others| ==> others[i] !in ReprOf(bottom)
    ensures ReprOf(bottom) !! Footprint(others)
  {
    forall i | 0 <= i < |others| && others[i] != null
      ensures others[i] in others[i].Repr
    {
    }
  }

  /**
   * What holds of the deepest path node before its ghost fields are brought
   * up to date: its children are the bottom and its side subtree, valid and
   * apart, and the rest of the path is separated from everything it will own.
   */
  lemma SpineDrop<V>(path: seq<Node<V>>, bottom: Node?<V>, ctx: seq<Frame<V>>, others: seq<Node?<V>>, U: set<object>)
    requires Spine(path, bottom, ctx, others, U) && |path| > 0
    ensures var m := |path| - 1;
      var n := path[m];
      && Linked(path[..m], n, ctx[..m], others[..m])
      && Hanging(ctx[..m], others[..m], U)
      && Separated(path[..m], {n} + ReprOf(bottom) + ReprOf(others[m]), others[..m], U)
      && n !in Footprint(others[..m]) && n !in others[..m] && n !in path[..m]
      && ValidOrNull(bottom) && ValidOrNull(others[m])
      && n !in ReprOf(bottom) && n !in ReprOf(others[m]) && ReprOf(bottom) !! ReprOf(others[m])
      && n in U && ReprOf(bottom) <= U && ReprOf(others[m]) <= U
      && {n} + ReprOf(n.left) + ReprOf(n.right) == {n} + ReprOf(bottom) + ReprOf(others[m])
      && (n.left == bottom || n.left == others[m]) && (n.right == bottom || n.right == others[m])
      && Plug([ctx[m]], ModelOf(bottom)) == Tree.Node(ModelOf(n.left), n.key, n.value, ModelOf(n.right))
  {
    var m := |path| - 1;
    var n := path[m];
    LinkedPrefix(path, bottom, ctx, others);
    HangingPrefix(ctx, others, U);
    SeparatedPrefix(path, ReprOf(bottom), others, U);
    PathOutsideFootprint(path, ReprOf(bottom), ctx, others, U, m);
    assert n.key == ctx[m].key && n.value == ctx[m].value;
    assert ctx[m].other == ModelOf(others[m]);
    assert Next(path, bottom, m) == bottom;
    assert [ctx[m]][1..] == [];
    assert Plug([ctx[m]][1..], ModelOf(bottom)) == ModelOf(bottom);
  }

  /**
   * Bring the ghost fields of the deepest path node up to date: it then
   * stands for its frame around the subtree at `bottom`, and is the valid
   * bottom of the rest of the path.
   */
  ghost method RefreshLast<V>(path: seq<Node<V>>, bottom: Node?<V>, ctx: seq<Frame<V>>, others: seq<Node?<V>>, U: set<object>)
    requires Spine(path, bottom, ctx, others, U) && |path| > 0
    modifies path[|path| - 1]
    ensures var m := |path| - 1;
      && Spine(path[..m], path[m], ctx[..m], others[..m], U)
      && path[m].model == Plug([ctx[m]], ModelOf(bottom))
  {
    var m := |path| - 1;
    var n := path[m];
    var path', ctx', others' := path[..m], ctx[..m], others[..m];
    SpineDrop(path, bottom, ctx, others, U);
    var below := {n} + ReprOf(bottom) + ReprOf(others[m]);
    n.Repr := below;
    n.model := Plug([ctx[m]], ModelOf(bottom));
    assert n.Valid();
    assert Linked(path', n, ctx', others');
    assert Hanging(ctx', others', U);
    SeparatedFrame((path', below, others', U));
    assert ReprOf(n) == below;
  }

  /** Separation depends on the side subtrees only through their `Repr`. */
  twostate lemma SeparatedFrame<V>(a: (seq<Node<V>>, set<object>, seq<Node?<V>>, set<object>))
    requires old(Separated(a.0, a.1, a.2, a.3))
    requires forall i :: 0 <= i < |a.2| ==> ReprOf(a.2[i]) == old(ReprOf(a.2[i]))
    ensures Separated(a.0, a.1, a.2, a.3)
  {
  }

  /**
   * Bring the ghost fields of the path nodes up to date, deepest first, once
   * the heap below and beside them is valid: the first node then stands for
   * the tree `ctx` rebuilds around the subtree at `bottom`.
   */
  ghost method Refresh<V>(path: seq<Node<V>>, bottom: Node?<V>, ctx: seq<Frame<V>>, others: seq<Node?<V>>, U: set<object>)
    requires Spine(path, bottom, ctx, others, U)
    modifies set i | 0 <= i < |path| :: path[i]
    ensures |path| > 0 ==> path[0].Valid() && path[0].Repr <= U && path[0].model == Plug(ctx, ModelOf(bottom))
    decreases |path|
  {
    if |path| == 0 {
      return;
    }
    var m := |path| - 1;
    var n := path[m];
    PlugLast(ctx, ModelOf(bottom));
    assert n !in path[..m];
    RefreshLast(path, bottom, ctx, others, U);
    var below := n.model;
    Refresh(path[..m], n, ctx[..m], others[..m], U);
    assert n.model == below;
  }
}
