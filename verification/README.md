# Stacks and search trees of `parallel-programming`, modelled in Dafny

The repository has two families of concurrent containers. This project models
the sequential meaning of each and proves what the code promises about it.

* **Three LIFO stacks over a singly linked list of cells:**
  * a plain stack (`consistentStack`);
  * a lock-free Treiber stack, whose `Push`/`Pop` retry a compare-and-swap on
    `top` (`traiberStack`);
  * an elimination-backoff Treiber stack (`optimizedTraiberStack`). It makes
    one compare-and-swap attempt; when that loses, it visits a randomly chosen
    exchanger slot to meet a complementary operation, then retries.
* **The exchanger slot:** a `(value, state)` item driven through
  empty → waiting → busy → empty within a budget of `replays` rounds.
* **The exchanger array:** a fixed set of slots.
* **Three binary search trees with integer keys:**
  * a coarse-grained tree with one lock and recursive helpers;
  * a fine-grained tree, which locks hand over hand down the search path;
  * an optimistic tree, which searches without locks, then locks and checks the
    path again.

  All three are modelled with the locks dropped. Each public operation is one
  sequential update of the heap.

## Modules

* **`Stacks`** (`stacks.dfy`):
  * the error taxonomy. Emptiness and a lost compare-and-swap are different
    constructors;
  * the `(T, error)` result shapes;
  * the immutable `Cell` class. Its list of values is the ghost function
    `Chain`;
  * the counting walk shared by every `Len`.
* **`ConsistentStack`, `TraiberStack` and `OptimizedTraiberStack`:** one class
  per stack, whose field `top` the methods reassign.
  * Each receiver method is a module-level method taking a `Stack?`, because
    the Go code checks for a nil receiver.
  * Interference from other threads is a parameter. `stale` lists what the
    first Loads of `top` return; a sequential run passes `[]`.
* **`Exchanger` and `EliminationArray`:** the slot class with its
  `Exchange` loop, and the array of slots.
  * A `schedule` parameter lists the items other parties store into the slot
    before each atomic access; a sequential run passes `[]`.
* **`Bst`** (`bst.dfy`): the specification of the trees. It holds
  * the datatype `Tree` with `Lookup`, `Insert` and `Size`;
  * `Keys`, and the open-interval validity check `IsValidBST`;
  * the two removal algorithms:
    * `RemoveRec`, the recursive one of the coarse tree;
    * `Remove`, the iterative one of the other two trees, which removes the
      successor as the tree's minimum;
  * `Plug`, which rebuilds a tree from a search path's frames and the subtree
    at its end;
  * lemmas that each operation is correct on a valid tree.
* **`BstNodes`** (`bst_nodes.dfy`):
  * the heap node shared by the three trees. It has a ghost `model` (the
    subtree it stands for) and a ghost `Repr` (the nodes it owns);
  * the recursive count and validity check.
* **`SearchPaths`** (`search_paths.dfy`): search walks over the heap.
  * A walk is the nodes passed, the frames they stand for and the side
    subtrees left behind.
  * The ghost method `Refresh` recomputes the ghost fields of a walk's nodes
    after a link below them changed.
* **`Relinking`** (`relinking.dfy`): the part of `Insert`/`Remove` that the
  fine-grained and optimistic trees share word for word, after
  `findWithParent`.
* **`CoarseGrainedTree`, `FineGrainedTree` and `OptimisticTree`:** one class
  per tree, with its `root` field and methods.

## Model

| member | source | states |
|---|---|---|
| Stacks.Cell.constructor | first-task/src/stacks/consistentStack/consistentStack.go:33 | a new cell holds the value and the old top, and its list is the value followed by the old list |
| Stacks.CountCells | first-task/src/stacks/consistentStack/consistentStack.go:54-60 | the counting walk from `top` returns the number of values in the list |
| ConsistentStack.Stack.constructor | first-task/src/stacks/consistentStack/consistentStack.go:17-20 | a fresh stack is empty |
| ConsistentStack.Peek | first-task/src/stacks/consistentStack/consistentStack.go:22-27 | an empty stack gives EmptyStack, otherwise the first value; nothing is modified; there is no nil check, so a non-nil stack is required |
| ConsistentStack.Push | first-task/src/stacks/consistentStack/consistentStack.go:29-36 | nil receiver gives NilReceiver and no change; otherwise no error and the contents become `[value] + old contents` |
| ConsistentStack.Pop | first-task/src/stacks/consistentStack/consistentStack.go:38-48 | nil receiver gives NilReceiver; an empty stack gives EmptyStack and is unchanged; otherwise the first value is returned and the contents become their tail |
| ConsistentStack.Len | first-task/src/stacks/consistentStack/consistentStack.go:50-61 | nil receiver gives NilReceiver; otherwise the number of values, with nothing modified |
| ConsistentStack.PushThreePopTwice | first-task/src/tests/sequential_execution_test.go:88-105 | pushing 1, 2, 3 and popping once makes the next pop yield 2 (LIFO order) |
| ConsistentStack.PushThenPopAll | first-task/src/tests/sequential_execution_test.go:67-86 | after n pushes and n pops, the next pop reports EmptyStack |
| TraiberStack.Stack.constructor | first-task/src/stacks/traiberStack/traiberStack.go:18-21 | a fresh stack is empty |
| TraiberStack.Stack.CompareAndSwapTop | first-task/src/stacks/traiberStack/traiberStack.go:43 | the swap happens exactly when `top` equals the expected cell; otherwise `top` is unchanged |
| TraiberStack.Peek | first-task/src/stacks/traiberStack/traiberStack.go:23-33 | nil receiver gives NilReceiver; empty gives EmptyStack; otherwise the first value; nothing is modified |
| TraiberStack.Push | first-task/src/stacks/traiberStack/traiberStack.go:35-47 | nil receiver gives NilReceiver; otherwise the retry loop ends with no error and contents `[value] + old contents`, however many compare-and-swaps lose |
| TraiberStack.Pop | first-task/src/stacks/traiberStack/traiberStack.go:49-61 | an empty stack gives EmptyStack without writing `top`; EmptyStack otherwise only when one of the stale Loads saw nil; a value returned is the old first value, and the contents become the tail |
| TraiberStack.Len | first-task/src/stacks/traiberStack/traiberStack.go:63-74 | nil receiver gives NilReceiver; otherwise the number of values |
| TraiberStack.PushThreePopTwice | first-task/src/tests/sequential_execution_test.go:88-105 | pushing 1, 2, 3 and popping once makes the next pop yield 2 |
| TraiberStack.PushThenPopAll | first-task/src/tests/sequential_execution_test.go:67-86 | after n pushes and n pops, the next pop reports EmptyStack |
| Exchanger.Slot.constructor | first-task/src/stacks/optimizedTraiberStack/eliminationArray.go:14-18 | a new slot holds `(nil, empty)` |
| Exchanger.Slot.CompareAndSwap | first-task/src/stacks/optimizedTraiberStack/exchanger.go:36 | the item is replaced exactly when it equals the expected item |
| Exchanger.Slot.Exchange | first-task/src/stacks/optimizedTraiberStack/exchanger.go:25-68 | at most `replays + 1` reads; with `replays <= 0` an error and no access to the slot; any error is IterationsExceeded; a success leaves the caller's value busy with a complementary partner value taken from a waiting item (the old slot or one another party stored), or the slot `(nil, empty)` with the returned value taken from a busy item another party stored; sequentially, success happens exactly when a complementary waiter is already in the slot, its value is returned and the slot holds `(value, busy)`, and on failure the slot is as before |
| Exchanger.ExchangeAlone | first-task/src/stacks/optimizedTraiberStack/exchanger.go:32-47 | with no other party, an exchange on an empty slot always fails with IterationsExceeded and leaves the slot `(nil, empty)` |
| EliminationArray.ExchangersArray.constructor | first-task/src/stacks/optimizedTraiberStack/eliminationArray.go:11-20 | exactly `power` distinct fresh slots, each `(nil, empty)`, with `power` and `replays` recorded as given |
| EliminationArray.ExchangersArray.Visit | first-task/src/stacks/optimizedTraiberStack/eliminationArray.go:22-25 | the chosen index is in `[0, power)`; no other slot changes; success happens exactly when that slot held a complementary waiter, whose value is returned while the slot becomes `(value, busy)`; on failure the slot is as before |
| OptimizedTraiberStack.Stack.constructor | first-task/src/stacks/optimizedTraiberStack/optimizedTraiberStack.go:19-22 | a fresh stack is empty and owns a fresh array of 10 empty slots with a budget of 500 |
| OptimizedTraiberStack.Stack.CompareAndSwapTop | first-task/src/stacks/optimizedTraiberStack/optimizedTraiberStack.go:41 | the swap happens exactly when `top` equals the expected cell |
| OptimizedTraiberStack.Stack.PrimitivePush | first-task/src/stacks/optimizedTraiberStack/optimizedTraiberStack.go:37-42 | true exactly when the observed top is still `top`, and then contents are `[value] + old`; when false, `top` is unchanged |
| OptimizedTraiberStack.Stack.PrimitivePop | first-task/src/stacks/optimizedTraiberStack/optimizedTraiberStack.go:63-76 | an empty snapshot gives EmptyStack; a lost compare-and-swap gives UnsuccessfulPrimitivePop with `top` unchanged; otherwise the first value, and contents become the tail |
| OptimizedTraiberStack.Peek | first-task/src/stacks/optimizedTraiberStack/optimizedTraiberStack.go:24-35 | nil receiver gives NilReceiver; empty gives EmptyStack; otherwise the first value |
| OptimizedTraiberStack.Push | first-task/src/stacks/optimizedTraiberStack/optimizedTraiberStack.go:44-61 | nil receiver gives NilReceiver; otherwise always no error. Either the value is prepended and no slot changes, or the list is untouched and the value went to a waiting pop in exactly one slot. Sequentially, it is prepended |
| OptimizedTraiberStack.Pop | first-task/src/stacks/optimizedTraiberStack/optimizedTraiberStack.go:78-97 | the only error is EmptyStack, with `top` and every slot unchanged, and only from an empty (possibly out-of-date) snapshot. A value is either the old first value, with contents becoming the tail, or received from a waiting push in one slot. Sequentially, it is the usual pop |
| OptimizedTraiberStack.Len | first-task/src/stacks/optimizedTraiberStack/optimizedTraiberStack.go:99-110 | nil receiver gives NilReceiver; otherwise the number of values |
| OptimizedTraiberStack.PushThreePopTwice | first-task/src/tests/sequential_execution_test.go:88-105 | pushing 1, 2, 3 and popping once makes the next pop yield 2 |
| OptimizedTraiberStack.PushThenPopAll | first-task/src/tests/sequential_execution_test.go:67-86 | after n pushes and n pops, the next pop reports EmptyStack |
| Bst.ValidIffOrderedInBounds | fourth-task/trees/coarseGrainedTree/coarseGrainedTree.go:179-187 | the bounded recursive check holds iff the tree is ordered and every key lies strictly inside the optional bounds |
| Bst.ValidIsOrdered | fourth-task/trees/coarseGrainedTree/coarseGrainedTree.go:172-177 | a tree passing `IsValid` is ordered |
| Bst.OrderedIsValid | fourth-task/trees/coarseGrainedTree/coarseGrainedTree.go:172-177 | an ordered tree passes `IsValid` |
| Bst.LookupOrdered | fourth-task/trees/coarseGrainedTree/coarseGrainedTree.go:73-86 | in an ordered tree the search finds a key iff the key is stored |
| Bst.LookupIffKey | fourth-task/trees/coarseGrainedTree/coarseGrainedTree.go:66-86 | in a valid tree `Find` reports a key iff it is among the keys |
| Bst.InsertLookup | fourth-task/trees/coarseGrainedTree/coarseGrainedTree.go:47-64 | after insert, the key maps to the new value and every other key maps to what it did before |
| Bst.InsertKeys | fourth-task/trees/coarseGrainedTree/coarseGrainedTree.go:47-64 | insert adds exactly the key to the key set |
| Bst.InsertSize | fourth-task/trees/coarseGrainedTree/coarseGrainedTree.go:47-64 | insert adds one node for a new key and none for a stored one |
| Bst.InsertExistingSameShape | fourth-task/trees/coarseGrainedTree/coarseGrainedTree.go:60-63 | inserting a stored key keeps the shape and every key; only that value changes |
| Bst.InsertValidBST | fourth-task/trees/coarseGrainedTree/coarseGrainedTree.go:47-59 | insert of a key inside the bounds keeps the bounded check true |
| Bst.InsertCorrect | fourth-task/trees/coarseGrainedTree/coarseGrainedTree.go:37-64 | on a valid tree, insert keeps it valid, adds the key, adds one node iff the key is new, and makes the key map to the value |
| Bst.MinEntryIsMin | fourth-task/trees/coarseGrainedTree/coarseGrainedTree.go:127-133 | the leftmost entry of an ordered non-empty tree holds its smallest key, and its value is the one stored under that key |
| Bst.RemoveMinShape | fourth-task/trees/fineGrainedTree/fineGrainedTree.go:223-232 | unlinking the leftmost node removes exactly the smallest key and one node, and keeps the tree ordered |
| Bst.RemoveRecFound | fourth-task/trees/coarseGrainedTree/coarseGrainedTree.go:95-125 | the flag of the recursive removal is true iff the search finds the key |
| Bst.RemoveAbsent | fourth-task/trees/fineGrainedTree/fineGrainedTree.go:158-166 | removing an absent key changes nothing and reports false, in both removal algorithms |
| Bst.RemoveRecMin | fourth-task/trees/coarseGrainedTree/coarseGrainedTree.go:121 | recursively removing the smallest key is the same as unlinking the leftmost node |
| Bst.RemoveAgrees | fourth-task/trees/fineGrainedTree/fineGrainedTree.go:154-238 | on an ordered tree, the iterative removal and the recursive one give the same tree |
| Bst.RemoveRecLookup | fourth-task/trees/coarseGrainedTree/coarseGrainedTree.go:107-122 | on an ordered tree, after the recursive removal the key is absent and every other key maps to the value it had, the successor's value moving with its key |
| Bst.RemoveRecOrdered | fourth-task/trees/coarseGrainedTree/coarseGrainedTree.go:95-125 | on an ordered tree, the recursive removal removes exactly the key, keeps order, and removes one node iff the key was stored |
| Bst.RemoveRecCorrect | fourth-task/trees/coarseGrainedTree/coarseGrainedTree.go:95-125 | on a valid tree, `removeRecursive` returns true iff the key is stored, and a valid tree without the key, with every other key's value kept and one node fewer iff the key was stored |
| Bst.RemoveCorrect | fourth-task/trees/fineGrainedTree/fineGrainedTree.go:154-238 | on a valid tree, the iterative removal gives a valid tree without the key, with every other key's value kept and one node fewer iff the key was stored |
| Bst.RemoveDiscardingRootLosesRemoval | fourth-task/trees/coarseGrainedTree/coarseGrainedTree.go:88-93 | when the key is at a root with fewer than two children, `Remove` reports true yet the key is still found and the size is unchanged |
| Bst.RemoveDiscardingRootElsewhere | fourth-task/trees/coarseGrainedTree/coarseGrainedTree.go:88-93 | in every other case, on a valid tree, `Remove` as written still gives a valid tree without the key, with every other key's value kept and one node fewer iff the key was stored |
| Bst.LookupPlug | fourth-task/trees/fineGrainedTree/fineGrainedTree.go:85-111 | searching for a key in a tree rebuilt from its search path is searching in the subtree at the end of the path |
| Bst.InsertPlug | fourth-task/trees/fineGrainedTree/fineGrainedTree.go:113-152 | inserting at the end of the key's search path is inserting into the whole tree |
| Bst.RemovePlug | fourth-task/trees/fineGrainedTree/fineGrainedTree.go:154-238 | removing at the end of the key's search path is removing from the whole tree |
| Bst.LeftSpineMin | fourth-task/trees/fineGrainedTree/fineGrainedTree.go:214-221 | the node where the left walk ends holds the minimum entry, and replacing it by its right child removes that minimum |
| BstNodes.Node.constructor | fourth-task/trees/coarseGrainedTree/coarseGrainedTree.go:41 | a new node is a valid leaf holding the key and value |
| BstNodes.CountFrom | fourth-task/trees/coarseGrainedTree/coarseGrainedTree.go:165-170 | the recursive count is the number of nodes of the subtree |
| BstNodes.IsValidFrom | fourth-task/trees/coarseGrainedTree/coarseGrainedTree.go:179-187 | the recursive check on the heap agrees with the bounded check on the subtree it stands for |
| SearchPaths.SearchStep | fourth-task/trees/fineGrainedTree/fineGrainedTree.go:56-79 | one step down, left below a larger key and right otherwise, keeps the walk a search path for the key and the whole tree unchanged, into a strictly smaller subtree |
| Relinking.InsertAt | fourth-task/trees/fineGrainedTree/fineGrainedTree.go:113-152 | after the search, the tree under the returned root is the insertion into the old tree; the root changes only when the tree was empty |
| Relinking.SetValue | fourth-task/trees/fineGrainedTree/fineGrainedTree.go:118-119 | overwriting the found node's value makes the whole tree the path rebuilt around the found subtree with the key inserted under the new value, so only that value changes |
| Relinking.Attach | fourth-task/trees/fineGrainedTree/fineGrainedTree.go:141-149 | a new leaf below the parent, on the side the key dictates, completes the search path with that leaf |
| Relinking.RemoveAt | fourth-task/trees/fineGrainedTree/fineGrainedTree.go:154-238 | after the search, the tree under the returned root is the removal from the old tree, and the result is true iff the key was found; the root changes only when the root itself is unlinked |
| Relinking.Splice | fourth-task/trees/fineGrainedTree/fineGrainedTree.go:177-206 | a node with at most one child is replaced by that child below its parent, or as the root |
| Relinking.RemoveInPlace | fourth-task/trees/fineGrainedTree/fineGrainedTree.go:208-235 | a node with two children stays in place, and the whole tree becomes the path rebuilt around the node's subtree without the key |
| Relinking.ReplaceBySuccessor | fourth-task/trees/fineGrainedTree/fineGrainedTree.go:209-232 | the node's subtree becomes its old subtree with the node's key removed |
| Relinking.UnlinkSuccessor | fourth-task/trees/fineGrainedTree/fineGrainedTree.go:210-232 | the right subtree loses its minimum, the returned successor holds that minimum entry, and the node's left subtree and entry are untouched |
| Relinking.UnlinkBelow | fourth-task/trees/fineGrainedTree/fineGrainedTree.go:223-224 | linking the successor's right child into its parent's left makes the right subtree the walk rebuilt around that child |
| Relinking.FindSuccessor | fourth-task/trees/fineGrainedTree/fineGrainedTree.go:210-221 | the walk from the right child follows left children only and ends at a node with no left child; the right subtree is the walk rebuilt around it |
| Relinking.Link | fourth-task/trees/fineGrainedTree/fineGrainedTree.go:198-204 | pointing the parent, on the side the walk took, at a new subtree keeps the walk well formed with that subtree at its end |
| CoarseGrainedTree.CoarseGrainedSyncTree.constructor | fourth-task/trees/coarseGrainedTree/coarseGrainedTree.go:22-27 | a fresh tree is empty |
| CoarseGrainedTree.CoarseGrainedSyncTree.Insert | fourth-task/trees/coarseGrainedTree/coarseGrainedTree.go:37-45 | the tree becomes the insertion into the old tree; a first key becomes the root |
| CoarseGrainedTree.CoarseGrainedSyncTree.InsertRecursive | fourth-task/trees/coarseGrainedTree/coarseGrainedTree.go:47-64 | the node's subtree becomes the insertion into its old subtree |
| CoarseGrainedTree.CoarseGrainedSyncTree.InsertLeft | fourth-task/trees/coarseGrainedTree/coarseGrainedTree.go:48-53 | only the left subtree changes, becoming the insertion into the old left subtree |
| CoarseGrainedTree.CoarseGrainedSyncTree.InsertRight | fourth-task/trees/coarseGrainedTree/coarseGrainedTree.go:54-59 | only the right subtree changes, becoming the insertion into the old right subtree |
| CoarseGrainedTree.CoarseGrainedSyncTree.Find | fourth-task/trees/coarseGrainedTree/coarseGrainedTree.go:66-71 | the value stored under the key, or none |
| CoarseGrainedTree.FindFrom | fourth-task/trees/coarseGrainedTree/coarseGrainedTree.go:73-86 | the recursive search from a node gives the lookup in its subtree |
| CoarseGrainedTree.CoarseGrainedSyncTree.Remove | fourth-task/trees/coarseGrainedTree/coarseGrainedTree.go:88-93 | as written: true iff the key is stored, and the tree becomes the recursive removal with its returned root discarded |
| CoarseGrainedTree.CoarseGrainedSyncTree.RemoveRelinkingRoot | fourth-task/trees/coarseGrainedTree/coarseGrainedTree.go:88-93 | corrected: true iff the key is stored; the tree is the recursive removal; on a valid tree it stays valid, loses exactly the key, keeps every other key's value, and loses one node iff the key was stored |
| CoarseGrainedTree.CoarseGrainedSyncTree.RemoveRecursive | fourth-task/trees/coarseGrainedTree/coarseGrainedTree.go:95-125 | the returned subtree and flag are the recursive removal from the old subtree. A node replaced by its child keeps its own fields, and every other node is returned itself |
| CoarseGrainedTree.CoarseGrainedSyncTree.RemoveLeft | fourth-task/trees/coarseGrainedTree/coarseGrainedTree.go:101-103 | only the left subtree changes, becoming the removal from the old left subtree |
| CoarseGrainedTree.CoarseGrainedSyncTree.RemoveRight | fourth-task/trees/coarseGrainedTree/coarseGrainedTree.go:104-106 | only the right subtree changes, becoming the removal from the old right subtree |
| CoarseGrainedTree.CoarseGrainedSyncTree.RemoveFound | fourth-task/trees/coarseGrainedTree/coarseGrainedTree.go:107-124 | the subtree returned is the removal of the node's own key: its child when it has fewer than two, else the node itself with the successor's entry |
| CoarseGrainedTree.CoarseGrainedSyncTree.MinValueNode | fourth-task/trees/coarseGrainedTree/coarseGrainedTree.go:127-133 | the node reached holds the minimum entry of the subtree |
| CoarseGrainedTree.CoarseGrainedSyncTree.CountNodes | fourth-task/trees/coarseGrainedTree/coarseGrainedTree.go:158-163 | the number of nodes of the tree |
| CoarseGrainedTree.CoarseGrainedSyncTree.IsValid | fourth-task/trees/coarseGrainedTree/coarseGrainedTree.go:172-177 | true iff the tree passes the unbounded open-interval check |
| CoarseGrainedTree.RemoveSoleKey | fourth-task/trees/coarseGrainedTree/coarseGrainedTree.go:91 | inserting 5 then removing it as written reports true, yet 5 is still found |
| CoarseGrainedTree.RemoveSoleKeyRelinked | fourth-task/trees/coarseGrainedTree/coarseGrainedTree.go:91 | with the root relinked, the same sequence leaves 5 absent |
| FineGrainedTree.FineGrainedSyncTree.constructor | fourth-task/trees/fineGrainedTree/fineGrainedTree.go:24-29 | a fresh tree is empty |
| FineGrainedTree.FineGrainedSyncTree.FindWithParent | fourth-task/trees/fineGrainedTree/fineGrainedTree.go:47-83 | the node returned holds the key or is nil where the key's search falls off; the parent is the last node passed, nil at the root; the whole tree is the path rebuilt around the node's subtree |
| FineGrainedTree.FineGrainedSyncTree.Find | fourth-task/trees/fineGrainedTree/fineGrainedTree.go:85-111 | the value stored under the key, or none; nothing is modified |
| FineGrainedTree.FineGrainedSyncTree.Insert | fourth-task/trees/fineGrainedTree/fineGrainedTree.go:113-152 | the tree becomes the insertion into the old tree |
| FineGrainedTree.FineGrainedSyncTree.Remove | fourth-task/trees/fineGrainedTree/fineGrainedTree.go:154-238 | the tree becomes the removal from the old tree; true iff the key was stored; on a valid tree it stays valid, loses exactly the key, keeps every other key's value, and loses one node iff it was stored |
| FineGrainedTree.FineGrainedSyncTree.CountNodes | fourth-task/trees/fineGrainedTree/fineGrainedTree.go:263-275 | the number of nodes of the tree |
| FineGrainedTree.FineGrainedSyncTree.IsValid | fourth-task/trees/fineGrainedTree/fineGrainedTree.go:277-292 | true iff the tree passes the open-interval check |
| OptimisticTree.OptimisticSyncTree.constructor | fourth-task/trees/optimisticTree/optimisticTree.go:23-28 | a fresh tree is empty |
| OptimisticTree.OptimisticSyncTree.FindWithParent | fourth-task/trees/optimisticTree/optimisticTree.go:46-105 | as in the fine-grained tree, and `(nil, nil)` on an empty tree; the retry branch is never taken without interference |
| OptimisticTree.OptimisticSyncTree.Descend | fourth-task/trees/optimisticTree/optimisticTree.go:54-68 | the lock-free walk ends at the node holding the key, or where the search falls off, with the last node passed as parent |
| OptimisticTree.OptimisticSyncTree.Retrace | fourth-task/trees/optimisticTree/optimisticTree.go:80-90 | with no interference, the validation walk stops at the same node and parent as the first walk |
| OptimisticTree.OptimisticSyncTree.Find | fourth-task/trees/optimisticTree/optimisticTree.go:107-134 | the value stored under the key, or none; nothing is modified |
| OptimisticTree.OptimisticSyncTree.Insert | fourth-task/trees/optimisticTree/optimisticTree.go:136-175 | the tree becomes the insertion into the old tree |
| OptimisticTree.OptimisticSyncTree.Remove | fourth-task/trees/optimisticTree/optimisticTree.go:177-262 | the tree becomes the removal from the old tree; true iff the key was stored; on a valid tree it stays valid, loses exactly the key, keeps every other key's value, and loses one node iff it was stored |
| OptimisticTree.OptimisticSyncTree.CountNodes | fourth-task/trees/optimisticTree/optimisticTree.go:287-299 | the number of nodes of the tree |
| OptimisticTree.OptimisticSyncTree.IsValid | fourth-task/trees/optimisticTree/optimisticTree.go:301-316 | true iff the tree passes the open-interval check |

## Left out

- Concurrency is not modelled: locks, goroutines, interleavings, linearizability and lock-free progress. Each lock-protected operation and each atomic step is modelled by its sequential meaning.
- Other threads' writes to a stack's `top` are only the `stale` values the first Loads return: the attempt-th Load of `top` in a retry loop yields `stale[attempt]` while the list lasts, then the current `top`. This is an assumption about the environment, not a property of `top.Load()`. Other parties' stores into an exchanger slot are only the `schedule` items stored before each access of one call.
- EliminationArray.ExchangersArray.Visit: the exchange on the chosen slot runs with no other party acting during the visit, so a visit succeeds only against a waiter already in the slot.
- Exchanger.Slot.Exchange: under a non-empty schedule the contract states the load bound, the possible outcomes and where a waiter's value comes from, but not which outcome occurs.
- The slot index comes from `math/rand` in the source; the model picks an arbitrary index in range and has no distribution.
- The zero value Go returns beside an error, or beside `false` from `Find`, is not modelled: `Result` carries only the error and `Option` only the value.
- A Go nil pointer in an exchanger item is `None`. Two items are compared by value, because Go's comparison of the stored pointers is not modelled.
- The Treiber `Push` allocates its cell once and re-stores its `next` on each attempt. The model builds the cell per attempt with its `next` fixed. The list it links is the same.
- The elimination-backoff stack's constructor uses the width 10 and budget 500 that `FreshOptimizedTraiberStack` hard-codes (first-task/src/stacks/optimizedTraiberStack/optimizedTraiberStack.go:19-22); it takes no parameters.
- `IsEmpty` is declared by the stack interface but implemented by no stack, so it is not modelled.
- `Print` and `printHelper` of the three trees write to the console and are not modelled.
- Keys are `int`; generic ordered keys are not modelled.
- The three trees share one node class. The mutex field of the fine-grained and optimistic nodes is not modelled.
- The final `return false` of `Remove` in fourth-task/trees/fineGrainedTree/fineGrainedTree.go:237 and fourth-task/trees/optimisticTree/optimisticTree.go:261 cannot be reached: the three cases before it cover every node. The model has no such branch.
- Relinking.ReplaceBySuccessor: the source copies the successor's key and value into the node inside each branch of the unlinking. The model copies them after the unlinking. The writes touch different nodes, or different fields of the same node when the successor is the node's right child (fourth-task/trees/fineGrainedTree/fineGrainedTree.go:228-231), so the result is the same.
- The fine-grained and optimistic `Insert`/`Remove` assign the root returned by Relinking.InsertAt/Relinking.RemoveAt to `root` on every call. That root differs from the old one only where the source assigns `tree.root`.
- OptimisticTree.OptimisticSyncTree.FindWithParent keeps the retry loop, but without interference the validation walk always agrees, so the retry branch is proved dead.

## Findings

| source | as written | input that shows it | evidently intended | confidence | as-written member | corrected member |
|---|---|---|---|---|---|---|
| fourth-task/trees/coarseGrainedTree/coarseGrainedTree.go:91 | `Remove` discards the subtree `removeRecursive` returns, so when the removed node is the root with fewer than two children, `root` keeps pointing at it | `Insert(5, 7)` on an empty tree, then `Remove(5)` returns true and `Find(5)` still returns 7 | store the returned subtree back into `root`, as the fine-grained and optimistic trees do | not executed | CoarseGrainedTree.CoarseGrainedSyncTree.Remove, CoarseGrainedTree.RemoveSoleKey, Bst.RemoveDiscardingRootLosesRemoval | CoarseGrainedTree.CoarseGrainedSyncTree.RemoveRelinkingRoot, CoarseGrainedTree.RemoveSoleKeyRelinked, Bst.RemoveRecCorrect |
