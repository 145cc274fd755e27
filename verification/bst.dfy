/**
 * The value-level meaning of the three binary search trees: a tree datatype
 * with `int` keys, the recursive checks and counts they share, and the
 * updates their Insert and Remove perform, with the laws those updates obey.
 */
module Bst {
  import opened Wrappers

  datatype Tree<V> = Nil | Node(left: Tree<V>, key: int, value: V, right: Tree<V>)

  /** countNodesRecursive */
  function Size<V>(t: Tree<V>): nat {
    match t
    case Nil => 0
    case Node(l, _, _, r) => 1 + Size(l) + Size(r)
  }

  function Keys<V>(t: Tree<V>): set<int> {
    match t
    case Nil => {}
    case Node(l, k, _, r) => Keys(l) + {k} + Keys(r)
  }

  /** `k` lies strictly between the optional bounds (a missing bound is no bound). */
  predicate InBounds(k: int, min: Option<int>, max: Option<int>) {
    (min.None? || min.value < k) && (max.None? || k < max.value)
  }

  /** isValidBSTRecursive: every key strictly inside the open bounds its ancestors impose. */
  predicate IsValidBST<V>(t: Tree<V>, min: Option<int>, max: Option<int>) {
    match t
    case Nil => true
    case Node(l, k, _, r) =>
      InBounds(k, min, max) && IsValidBST(l, min, Some(k)) && IsValidBST(r, Some(k), max)
  }

  /** IsValid: the check started with no bounds. */
  predicate IsValid<V>(t: Tree<V>) {
    IsValidBST(t, None, None)
  }

  /** Search-tree order stated on key sets, independently of the bounds-passing check. */
  predicate Ordered<V>(t: Tree<V>) {
    match t
    case Nil => true
    case Node(l, k, _, r) =>
      && Ordered(l) && Ordered(r)
      && (forall x :: x in Keys(l) ==> x < k)
      && (forall x :: x in Keys(r) ==> k < x)
  }

  /** findRecursive: descend left on a smaller key, right on a greater one. */
  function Lookup<V>(t: Tree<V>, key: int): Option<V> {
    match t
    case Nil => None
    case Node(l, k, v, r) =>
      if key < k then Lookup(l, key)
      else if key > k then Lookup(r, key)
      else Some(v)
  }

  /** insertRecursive: a new leaf where the search falls off, or a new value for a stored key. */
  function Insert<V>(t: Tree<V>, key: int, value: V): Tree<V> {
    match t
    case Nil => Node(Nil, key, value, Nil)
    case Node(l, k, v, r) =>
      if key < k then Node(Insert(l, key, value), k, v, r)
      else if key > k then Node(l, k, v, Insert(r, key, value))
      else Node(l, k, value, r)
  }

  /** minValueNode: the key and value of the leftmost node. */
  function MinEntry<V>(t: Tree<V>): (int, V)
    requires t.Node?
  {
    if t.left.Nil? then (t.key, t.value) else MinEntry(t.left)
  }

  /**
   * removeRecursive: the new subtree and whether the key was found. A node
   * with two children takes its in-order successor's entry, and that key is
   * then removed from the right subtree by a second search.
   */
  function RemoveRec<V>(t: Tree<V>, key: int): (Tree<V>, bool) {
    match t
    case Nil => (Nil, false)
    case Node(l, k, v, r) =>
      if key < k then
        var (l', removed) := RemoveRec(l, key); (Node(l', k, v, r), removed)
      else if key > k then
        var (r', removed) := RemoveRec(r, key); (Node(l, k, v, r'), removed)
      else if l.Nil? then (r, true)
      else if r.Nil? then (l, true)
      else
        var (mk, mv) := MinEntry(r); (Node(l, mk, mv, RemoveRec(r, mk).0), true)
  }

  /**
   * The coarse-grained `Remove` as written: it ignores the subtree that
   * `removeRecursive` returns, so a root holding the key with fewer than two
   * children stays in place.
   */
  function RemoveDiscardingRoot<V>(t: Tree<V>, key: int): Tree<V> {
    if t.Node? && t.key == key && (t.left.Nil? || t.right.Nil?) then t else RemoveRec(t, key).0
  }

  /** The successor walk of the iterative trees: unlink the leftmost node, keeping its right child. */
  function RemoveMin<V>(t: Tree<V>): Tree<V>
    requires t.Node?
  {
    if t.left.Nil? then t.right else Node(RemoveMin(t.left), t.key, t.value, t.right)
  }

  /**
   * Remove of the fine-grained and optimistic trees: a node with at most one
   * child is replaced by that child; a node with two children takes its
   * successor's entry and the successor is unlinked from the left spine.
   */
  function Remove<V>(t: Tree<V>, key: int): Tree<V> {
    match t
    case Nil => Nil
    case Node(l, k, v, r) =>
      if key < k then Node(Remove(l, key), k, v, r)
      else if key > k then Node(l, k, v, Remove(r, key))
      else if l.Nil? then r
      else if r.Nil? then l
      else
        var (mk, mv) := MinEntry(r); Node(l, mk, mv, RemoveMin(r))
  }

  /** Same nodes and keys in the same places; values may differ. */
  predicate SameShape<V>(a: Tree<V>, b: Tree<V>) {
    match (a, b)
    case (Nil, Nil) => true
    case (Node(al, ak, _, ar), Node(bl, bk, _, br)) => ak == bk && SameShape(al, bl) && SameShape(ar, br)
    case _ => false
  }

  /**
   * One step of a descent: the node's key and value, the side taken, and the
   * subtree on the other side.
   */
  datatype Frame<V> = Frame(wentLeft: bool, key: int, value: V, other: Tree<V>)

  /** The tree got by hanging `t` below the frames of `ctx`, outermost frame first. */
  function Plug<V>(ctx: seq<Frame<V>>, t: Tree<V>): Tree<V>
    decreases |ctx|
  {
    if |ctx| == 0 then t
    else
      var f := ctx[0];
      var below := Plug(ctx[1..], t);
      if f.wentLeft then Node(below, f.key, f.value, f.other) else Node(f.other, f.key, f.value, below)
  }

  /** Each frame of `ctx` is one step of the search for `key`: a different key, and the side that key dictates. */
  predicate SearchContext<V>(ctx: seq<Frame<V>>, key: int) {
    forall i :: 0 <= i < |ctx| ==> ctx[i].key != key && ctx[i].wentLeft == (key < ctx[i].key)
  }

  /** Every frame of `ctx` went left: the walk towards the smallest key. */
  predicate LeftSpine<V>(ctx: seq<Frame<V>>) {
    forall i :: 0 <= i < |ctx| ==> ctx[i].wentLeft
  }

  // ---------------------------------------------------------------------------
  // The bounds-passing check against key-set order
  // ---------------------------------------------------------------------------

  /** IsValidBST holds iff the tree is ordered and every key lies inside the bounds. */
  lemma {:induction false} ValidIffOrderedInBounds<V>(t: Tree<V>, min: Option<int>, max: Option<int>)
    ensures IsValidBST(t, min, max) <==> Ordered(t) && forall x :: x in Keys(t) ==> InBounds(x, min, max)
  {
    match t
    case Nil =>
    case Node(l, k, _, r) =>
      ValidIffOrderedInBounds(l, min, Some(k));
      ValidIffOrderedInBounds(r, Some(k), max);
      if IsValidBST(t, min, max) {
        forall x | x in Keys(t)
          ensures InBounds(x, min, max)
        {
          if x in Keys(l) {
            assert InBounds(x, min, Some(k));
          } else if x in Keys(r) {
            assert InBounds(x, Some(k), max);
          }
        }
        forall x | x in Keys(l)
          ensures x < k
        {
          assert InBounds(x, min, Some(k));
        }
        forall x | x in Keys(r)
          ensures k < x
        {
          assert InBounds(x, Some(k), max);
        }
      }
      if Ordered(t) && forall x :: x in Keys(t) ==> InBounds(x, min, max) {
        assert InBounds(k, min, max);
        forall x | x in Keys(l)
          ensures InBounds(x, min, Some(k))
        {
          assert InBounds(x, min, max);
        }
        forall x | x in Keys(r)
          ensures InBounds(x, Some(k), max)
        {
          assert InBounds(x, min, max);
        }
      }
  }

  lemma ValidIsOrdered<V>(t: Tree<V>)
    requires IsValid(t)
    ensures Ordered(t)
  {
    ValidIffOrderedInBounds(t, None, None);
  }

  lemma OrderedIsValid<V>(t: Tree<V>)
    requires Ordered(t)
    ensures IsValid(t)
  {
    ValidIffOrderedInBounds(t, None, None);
  }

  // ---------------------------------------------------------------------------
  // Lookup
  // ---------------------------------------------------------------------------

  lemma {:induction false} LookupOrdered<V>(t: Tree<V>, key: int)
    requires Ordered(t)
    ensures Lookup(t, key).Some? <==> key in Keys(t)
  {
    match t
    case Nil =>
    case Node(l, k, _, r) =>
      LookupOrdered(l, key);
      LookupOrdered(r, key);
  }

  /** Find answers `true` exactly for the stored keys of a valid tree. */
  lemma LookupIffKey<V>(t: Tree<V>, key: int)
    requires IsValid(t)
    ensures Lookup(t, key).Some? <==> key in Keys(t)
  {
    ValidIsOrdered(t);
    LookupOrdered(t, key);
  }

  // ---------------------------------------------------------------------------
  // Insert
  // ---------------------------------------------------------------------------

  /** After Insert(key, value) the key maps to `value` and every other key is as before. */
  lemma {:induction false} InsertLookup<V>(t: Tree<V>, key: int, value: V, other: int)
    ensures Lookup(Insert(t, key, value), other) == if other == key then Some(value) else Lookup(t, other)
  {
    match t
    case Nil =>
    case Node(l, k, _, r) =>
      if key < k {
        InsertLookup(l, key, value, other);
      } else if key > k {
        InsertLookup(r, key, value, other);
      }
  }

  lemma {:induction false} InsertKeys<V>(t: Tree<V>, key: int, value: V)
    ensures Keys(Insert(t, key, value)) == Keys(t) + {key}
  {
    match t
    case Nil =>
    case Node(l, k, _, r) =>
      if key < k {
        InsertKeys(l, key, value);
      } else if key > k {
        InsertKeys(r, key, value);
      }
  }

  /** Insert adds one node for a key it does not find, none for a key it finds. */
  lemma {:induction false} InsertSize<V>(t: Tree<V>, key: int, value: V)
    ensures Size(Insert(t, key, value)) == if Lookup(t, key).Some? then Size(t) else Size(t) + 1
  {
    match t
    case Nil =>
    case Node(l, k, _, r) =>
      if key < k {
        InsertSize(l, key, value);
      } else if key > k {
        InsertSize(r, key, value);
      }
  }

  /** Insert of a stored key only replaces its value: the shape is unchanged. */
  lemma {:induction false} InsertExistingSameShape<V>(t: Tree<V>, key: int, value: V)
    requires Lookup(t, key).Some?
    ensures SameShape(Insert(t, key, value), t)
  {
    match t
    case Node(l, k, _, r) =>
      if key < k {
        InsertExistingSameShape(l, key, value);
        SameShapeRefl(r);
      } else if key > k {
        InsertExistingSameShape(r, key, value);
        SameShapeRefl(l);
      } else {
        SameShapeRefl(l);
        SameShapeRefl(r);
      }
  }

  lemma {:induction false} SameShapeRefl<V>(t: Tree<V>)
    ensures SameShape(t, t)
  {
    match t
    case Nil =>
    case Node(l, _, _, r) =>
      SameShapeRefl(l);
      SameShapeRefl(r);
  }

  /** Insert of a key inside the bounds keeps the bounds-passing check true. */
  lemma {:induction false} InsertValidBST<V>(t: Tree<V>, key: int, value: V, min: Option<int>, max: Option<int>)
    requires IsValidBST(t, min, max) && InBounds(key, min, max)
    ensures IsValidBST(Insert(t, key, value), min, max)
  {
    match t
    case Nil =>
    case Node(l, k, _, r) =>
      if key < k {
        InsertValidBST(l, key, value, min, Some(k));
      } else if key > k {
        InsertValidBST(r, key, value, Some(k), max);
      }
  }

  /** Insert keeps a tree valid, adds the key, and grows the count by one exactly for a new key. */
  lemma InsertCorrect<V>(t: Tree<V>, key: int, value: V)
    requires IsValid(t)
    ensures IsValid(Insert(t, key, value))
    ensures Keys(Insert(t, key, value)) == Keys(t) + {key}
    ensures Size(Insert(t, key, value)) == if key in Keys(t) then Size(t) else Size(t) + 1
    ensures Lookup(Insert(t, key, value), key) == Some(value)
  {
    InsertValidBST(t, key, value, None, None);
    InsertKeys(t, key, value);
    InsertSize(t, key, value);
    LookupIffKey(t, key);
    InsertLookup(t, key, value, key);
  }

  // ---------------------------------------------------------------------------
  // The leftmost entry
  // ---------------------------------------------------------------------------

  /**
   * minValueNode finds the smallest key of an ordered tree, together with the
   * value stored under that key.
   */
  lemma {:induction false} MinEntryIsMin<V>(t: Tree<V>)
    requires t.Node? && Ordered(t)
    ensures MinEntry(t).0 in Keys(t)
    ensures forall x :: x in Keys(t) ==> MinEntry(t).0 <= x
    ensures Lookup(t, MinEntry(t).0) == Some(MinEntry(t).1)
  {
    if t.left.Node? {
      MinEntryIsMin(t.left);
    }
  }

  lemma {:induction false} RemoveMinShape<V>(t: Tree<V>)
    requires t.Node? && Ordered(t)
    ensures Size(RemoveMin(t)) == Size(t) - 1
    ensures Keys(RemoveMin(t)) == Keys(t) - {MinEntry(t).0}
    ensures Ordered(RemoveMin(t))
  {
    MinEntryIsMin(t);
    if t.left.Node? {
      RemoveMinShape(t.left);
    }
  }

  // ---------------------------------------------------------------------------
  // Remove
  // ---------------------------------------------------------------------------

  /** removeRecursive reports `true` exactly when its search finds the key. */
  lemma {:induction false} RemoveRecFound<V>(t: Tree<V>, key: int)
    ensures RemoveRec(t, key).1 == Lookup(t, key).Some?
  {
    match t
    case Nil =>
    case Node(l, k, _, r) =>
      if key < k {
        RemoveRecFound(l, key);
      } else if key > k {
        RemoveRecFound(r, key);
      }
  }

  /** Removing a key that is not found changes nothing. */
  lemma {:induction false} RemoveAbsent<V>(t: Tree<V>, key: int)
    requires Lookup(t, key).None?
    ensures RemoveRec(t, key) == (t, false)
    ensures Remove(t, key) == t
  {
    match t
    case Nil =>
    case Node(l, k, _, r) =>
      if key < k {
        RemoveAbsent(l, key);
      } else if key > k {
        RemoveAbsent(r, key);
      }
  }

  /** On an ordered tree, removing the smallest key by search unlinks the leftmost node. */
  lemma {:induction false} RemoveRecMin<V>(t: Tree<V>)
    requires t.Node? && Ordered(t)
    ensures RemoveRec(t, MinEntry(t).0) == (RemoveMin(t), true)
  {
    if t.left.Node? {
      MinEntryIsMin(t.left);
      RemoveRecMin(t.left);
    }
  }

  /** The coarse-grained and the iterative removals agree on ordered trees. */
  lemma {:induction false} RemoveAgrees<V>(t: Tree<V>, key: int)
    requires Ordered(t)
    ensures Remove(t, key) == RemoveRec(t, key).0
  {
    match t
    case Nil =>
    case Node(l, k, _, r) =>
      if key < k {
        RemoveAgrees(l, key);
      } else if key > k {
        RemoveAgrees(r, key);
      } else if l.Node? && r.Node? {
        RemoveRecMin(r);
      }
  }

  lemma {:induction false} RemoveRecOrdered<V>(t: Tree<V>, key: int)
    requires Ordered(t)
    ensures Keys(RemoveRec(t, key).0) == Keys(t) - {key}
    ensures Ordered(RemoveRec(t, key).0)
    ensures Size(RemoveRec(t, key).0) == if key in Keys(t) then Size(t) - 1 else Size(t)
  {
    match t
    case Nil =>
    case Node(l, k, _, r) =>
      if key < k {
        RemoveRecOrdered(l, key);
      } else if key > k {
        RemoveRecOrdered(r, key);
      } else if l.Node? && r.Node? {
        RemoveRecMin(r);
        RemoveMinShape(r);
        MinEntryIsMin(r);
      }
  }

  /**
   * On an ordered tree, removeRecursive leaves the removed key absent and
   * every other key with the value it had: the successor's value moves
   * with its key.
   */
  lemma {:induction false} RemoveRecLookup<V>(t: Tree<V>, key: int, x: int)
    requires Ordered(t)
    ensures Lookup(RemoveRec(t, key).0, x) == if x == key then None else Lookup(t, x)
  {
    RemoveRecOrdered(t, key);
    LookupOrdered(RemoveRec(t, key).0, x);
    LookupOrdered(t, x);
    match t
    case Nil =>
    case Node(l, k, v, r) =>
      LookupOrdered(l, x);
      LookupOrdered(r, x);
      if key < k {
        RemoveRecLookup(l, key, x);
      } else if key > k {
        RemoveRecLookup(r, key, x);
      } else if l.Node? && r.Node? {
        MinEntryIsMin(r);
        RemoveRecLookup(r, MinEntry(r).0, x);
      }
  }

  /**
   * removeRecursive on a valid tree: the result is valid, lacks the key,
   * keeps every other key's value, and has one node fewer exactly when the
   * key was stored.
   */
  lemma RemoveRecCorrect<V>(t: Tree<V>, key: int)
    requires IsValid(t)
    ensures IsValid(RemoveRec(t, key).0)
    ensures Keys(RemoveRec(t, key).0) == Keys(t) - {key}
    ensures RemoveRec(t, key).1 == (key in Keys(t))
    ensures Size(RemoveRec(t, key).0) == if key in Keys(t) then Size(t) - 1 else Size(t)
    ensures forall x :: Lookup(RemoveRec(t, key).0, x) == if x == key then None else Lookup(t, x)
  {
    ValidIsOrdered(t);
    RemoveRecOrdered(t, key);
    OrderedIsValid(RemoveRec(t, key).0);
    RemoveRecFound(t, key);
    LookupOrdered(t, key);
    forall x
      ensures Lookup(RemoveRec(t, key).0, x) == if x == key then None else Lookup(t, x)
    {
      RemoveRecLookup(t, key, x);
    }
  }

  /**
   * The iterative trees' Remove on a valid tree: valid result without the
   * key, every other key with its value, one node fewer if it was stored.
   */
  lemma RemoveCorrect<V>(t: Tree<V>, key: int)
    requires IsValid(t)
    ensures IsValid(Remove(t, key))
    ensures Keys(Remove(t, key)) == Keys(t) - {key}
    ensures Size(Remove(t, key)) == if key in Keys(t) then Size(t) - 1 else Size(t)
    ensures forall x :: Lookup(Remove(t, key), x) == if x == key then None else Lookup(t, x)
  {
    ValidIsOrdered(t);
    RemoveAgrees(t, key);
    RemoveRecCorrect(t, key);
  }

  /**
   * The root defect of the coarse-grained Remove: a root holding the key with
   * fewer than two children is reported removed, yet the key is still found.
   */
  lemma RemoveDiscardingRootLosesRemoval<V>(t: Tree<V>, key: int)
    requires t.Node? && t.key == key && (t.left.Nil? || t.right.Nil?)
    ensures RemoveRec(t, key).1
    ensures Lookup(RemoveDiscardingRoot(t, key), key) == Some(t.value)
    ensures Size(RemoveDiscardingRoot(t, key)) == Size(t)
  {
  }

  /**
   * Away from that case the coarse-grained Remove loses nothing: on a valid
   * tree the result is valid, lacks the key, keeps every other key's value,
   * and has one node fewer exactly when the key was stored.
   */
  lemma RemoveDiscardingRootElsewhere<V>(t: Tree<V>, key: int)
    requires IsValid(t) && !(t.Node? && t.key == key && (t.left.Nil? || t.right.Nil?))
    ensures IsValid(RemoveDiscardingRoot(t, key))
    ensures Keys(RemoveDiscardingRoot(t, key)) == Keys(t) - {key}
    ensures Size(RemoveDiscardingRoot(t, key)) == if key in Keys(t) then Size(t) - 1 else Size(t)
    ensures forall x :: Lookup(RemoveDiscardingRoot(t, key), x) == if x == key then None else Lookup(t, x)
  {
    RemoveRecCorrect(t, key);
  }

  // ---------------------------------------------------------------------------
  // Search contexts
  // ---------------------------------------------------------------------------

  lemma {:induction false} PlugAppend<V>(a: seq<Frame<V>>, b: seq<Frame<V>>, t: Tree<V>)
    ensures Plug(a + b, t) == Plug(a, Plug(b, t))
    decreases |a|
  {
    if |a| > 0 {
      assert (a + b)[0] == a[0] && (a + b)[1..] == a[1..] + b;
      PlugAppend(a[1..], b, t);
    } else {
      assert a + b == b;
    }
  }

  /** The innermost frame of a context can be plugged first. */
  lemma PlugLast<V>(ctx: seq<Frame<V>>, t: Tree<V>)
    requires |ctx| > 0
    ensures Plug(ctx, t) == Plug(ctx[..|ctx| - 1], Plug([ctx[|ctx| - 1]], t))
  {
    var m := |ctx| - 1;
    assert ctx == ctx[..m] + [ctx[m]];
    PlugAppend(ctx[..m], [ctx[m]], t);
  }

  /** A search for `key` reaches the same answer from the top as from the subtree its context leads to. */
  lemma {:induction false} LookupPlug<V>(ctx: seq<Frame<V>>, t: Tree<V>, key: int)
    requires SearchContext(ctx, key)
    ensures Lookup(Plug(ctx, t), key) == Lookup(t, key)
    decreases |ctx|
  {
    if |ctx| > 0 {
      LookupPlug(ctx[1..], t, key);
    }
  }

  /** Inserting at the top equals inserting in the subtree the search for the key reaches. */
  lemma {:induction false} InsertPlug<V>(ctx: seq<Frame<V>>, t: Tree<V>, key: int, value: V)
    requires SearchContext(ctx, key)
    ensures Insert(Plug(ctx, t), key, value) == Plug(ctx, Insert(t, key, value))
    decreases |ctx|
  {
    if |ctx| > 0 {
      InsertPlug(ctx[1..], t, key, value);
    }
  }

  /** Removing at the top equals removing in the subtree the search for the key reaches. */
  lemma {:induction false} RemovePlug<V>(ctx: seq<Frame<V>>, t: Tree<V>, key: int)
    requires SearchContext(ctx, key)
    ensures Remove(Plug(ctx, t), key) == Plug(ctx, Remove(t, key))
    decreases |ctx|
  {
    if |ctx| > 0 {
      RemovePlug(ctx[1..], t, key);
    }
  }

  /**
   * The successor walk: below a left spine, a node without a left child holds
   * the smallest entry, and unlinking it leaves its right subtree in its place.
   */
  lemma {:induction false} LeftSpineMin<V>(ctx: seq<Frame<V>>, k: int, v: V, r: Tree<V>)
    requires LeftSpine(ctx)
    ensures Plug(ctx, Node(Nil, k, v, r)).Node?
    ensures MinEntry(Plug(ctx, Node(Nil, k, v, r))) == (k, v)
    ensures RemoveMin(Plug(ctx, Node(Nil, k, v, r))) == Plug(ctx, r)
    decreases |ctx|
  {
    if |ctx| > 0 {
      LeftSpineMin(ctx[1..], k, v, r);
    }
  }
}
