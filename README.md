# Binary search tree, modelled in Dafny

This project models the class `BinarySearchTree<T extends Comparable<T>>`.
It is an unbalanced binary search tree whose nodes are linked objects. The
tree keeps, next to its root, an index of every key it holds (a `HashSet`).
The model covers these operations:

- insertion by a comparison walk (`add`, `checkAndPlace`), and bulk loading from an array or a list;
- membership (`contains`), `size` and `isEmpty`;
- lookup of a node, of its depth and of its parent (`getNode`, `getNodeDepth`, `getParentNode` / `iterGetParent`);
- the height (`getHeight` / `recurCheckDepth`);
- three-case removal (`remove` / `removeNode`);
- the pre-, in- and post-order listings;
- rebalancing by reinserting the sorted keys, median first (`redrawBalanced` / `recurAdd`).

Keys are mathematical integers. They stand for the `Comparable` key type, whose `compareTo` is a strict total order.
The tree is the value `Tree = Empty | Node(left, key, right)`. `Empty` takes the place of the source's node with a null key: the empty root, and the shared `EMPTY_NODE` returned for "not found".

The tree object is the class `Bst.BinarySearchTree`. It has the fields `root` and `index`, which its methods reassign.
Its invariant `Valid()` says two things:

- `root` is a search tree with distinct keys;
- `index` is exactly the set of keys reachable from `root`.

Every method that changes the object keeps this invariant.
So after any sequence of `add`, `remove` and `redrawBalanced`:

- the in-order listing is strictly ascending;
- `contains(k)` holds exactly when some node holds `k`.

Modules:

- `Trees` (trees.dfy): the tree, its keys, size and height, and the three listings (specification functions and the accumulator recursions of the source).
- `Lookup` (lookup.dfy): the search walk, the search path, whose length is the depth, and the parent.
- `Insertion` (insertion.dfy): `checkAndPlace`, `add` and bulk loading.
- `Deletion` (deletion.dfy): three-case removal with the in-order successor.
- `Rebalance` (rebalance.dfy): the median rebuild and its height.
- `Bst` (bst.dfy): the class itself.
- `AsWritten` (as_written.dfy): removal and parent lookup exactly as the source performs them, over node objects with nullable keys and pointers. It exhibits the defects listed under Findings.
- `Examples` (examples.dfy): a worked example with seven keys.

Removal in the model is the evidently intended one that the documentation describes (lines 457-463 of the class):

- a leaf is unlinked;
- a node with one child is replaced by that child;
- a node with two children takes the key of its in-order successor, and the successor is spliced out and replaced by its right child;
- the root is removed like any other node.

## Model

| member | source | states |
|---|---|---|
| Trees.RecurCheckDepth | src/main/java/org/example/binarysearchtree/BinarySearchTree.java:548-559 | Called on a node at depth d, returns the depth of the deepest node below it: d plus the subtree's height minus one |
| Trees.RecurPreOrder | src/main/java/org/example/binarysearchtree/BinarySearchTree.java:603-611 | Appends exactly the pre-order listing (node, left, right) of the subtree to the list built so far |
| Trees.RecurInOrder | src/main/java/org/example/binarysearchtree/BinarySearchTree.java:629-637 | Appends exactly the in-order listing (left, node, right) of the subtree to the list built so far |
| Trees.RecurPostOrder | src/main/java/org/example/binarysearchtree/BinarySearchTree.java:655-663 | Appends exactly the post-order listing (left, right, node) of the subtree to the list built so far |
| Trees.TraversalsArePermutations | src/main/java/org/example/binarysearchtree/BinarySearchTree.java:591-663 | The three listings are permutations of one another |
| Trees.TraversalLengths | src/main/java/org/example/binarysearchtree/BinarySearchTree.java:591-663 | Each listing has one entry per node |
| Trees.TraversalKeys | src/main/java/org/example/binarysearchtree/BinarySearchTree.java:591-663 | A key occurs in each listing exactly when some node holds it |
| Trees.BstIffSortedInOrder | src/main/java/org/example/binarysearchtree/BinarySearchTree.java:617-637 | A tree is a search tree with distinct keys exactly when its in-order listing is strictly ascending (both directions) |
| Trees.KeyCountIsNodeCount | src/main/java/org/example/binarysearchtree/BinarySearchTree.java:136-144 | In a search tree, the number of distinct keys (what `size` counts) equals the number of nodes |
| Trees.HeightBounds | src/main/java/org/example/binarysearchtree/BinarySearchTree.java:434-443 | Height and node count bound each other: height <= nodes < 2^height |
| Lookup.Find | src/main/java/org/example/binarysearchtree/BinarySearchTree.java:335-353 | The walk's result holds the key and is a subtree of the tree; in a search tree a node is found exactly when the key is present, otherwise the empty node |
| Lookup.SearchPath | src/main/java/org/example/binarysearchtree/BinarySearchTree.java:371-391 | The keys compared on the walk are keys of the tree, at most the height in number; for a present key the walk ends at it, and no earlier comparison meets it |
| Lookup.Parent | src/main/java/org/example/binarysearchtree/BinarySearchTree.java:409-428 | The node returned is a subtree with a child holding the key; in a search tree there is one exactly when the key is present and not at the root, otherwise the empty node |
| Lookup.ParentIsOneLevelUp | src/main/java/org/example/binarysearchtree/BinarySearchTree.java:409-428 | The parent's depth is one less than the depth of the node it leads to |
| Insertion.CheckAndPlace | src/main/java/org/example/binarysearchtree/BinarySearchTree.java:568-585 | The root key is kept, the key set gains the new key, there is exactly one more node, and for a fresh key the search-tree order is kept |
| Insertion.CheckAndPlaceMakesLeaf | src/main/java/org/example/binarysearchtree/BinarySearchTree.java:568-585 | The fresh key becomes a new leaf exactly where the search for it ends: greater goes right, otherwise left |
| Insertion.AddKey | src/main/java/org/example/binarysearchtree/BinarySearchTree.java:261-273 | On an empty root the key becomes the root. A present key leaves the tree unchanged. A fresh key adds exactly one node. The key set gains the key and the order is kept |
| Insertion.AddKeyMakesLeaf | src/main/java/org/example/binarysearchtree/BinarySearchTree.java:261-273 | A fresh key is found afterwards as a leaf |
| Insertion.AddAll | src/main/java/org/example/binarysearchtree/BinarySearchTree.java:298-309 | Adding a sequence of keys one after another keeps the search-tree order |
| Insertion.AddAllKeys | src/main/java/org/example/binarysearchtree/BinarySearchTree.java:298-309 | After adding a sequence, a key is present exactly when it was present before or occurs in the sequence |
| Insertion.AddAllAppend | src/main/java/org/example/binarysearchtree/BinarySearchTree.java:298-309 | Adding a + b is adding a, then b |
| Insertion.ReplayPreOrder | src/main/java/org/example/binarysearchtree/BinarySearchTree.java:591-611 | Adding the pre-order listing of a search tree to an empty tree rebuilds that very tree |
| Insertion.IncreasingRunHeight | src/main/java/org/example/binarysearchtree/BinarySearchTree.java:568-585 | Adding n strictly increasing keys to an empty tree gives a chain going right, of height n |
| Deletion.MinKey | src/main/java/org/example/binarysearchtree/BinarySearchTree.java:527-530 | The successor loop (leftmost node) finds the least key of the subtree, which is the first in-order |
| Deletion.DeleteMin | src/main/java/org/example/binarysearchtree/BinarySearchTree.java:526-537 | Splicing out the leftmost node removes exactly the least key and one node, and keeps the order |
| Deletion.RemoveRoot | src/main/java/org/example/binarysearchtree/BinarySearchTree.java:493-537 | A leaf leaves nothing and a node with one child leaves that child. A node with two children keeps its left subtree and takes the least key greater than its own. The node's own key, and no other, is gone; one node fewer; order kept |
| Deletion.Delete | src/main/java/org/example/binarysearchtree/BinarySearchTree.java:452-454 | Removing k leaves the keys minus k and the order intact. There is one node fewer exactly when k was present, and the tree is unchanged when k is absent |
| Deletion.DeleteUndoesAdd | src/main/java/org/example/binarysearchtree/BinarySearchTree.java:261-273 | Adding a fresh key and then removing it gives back exactly the original tree |
| Deletion.LeafRemovalUndoneByAdd | src/main/java/org/example/binarysearchtree/BinarySearchTree.java:493-503 | Removing a leaf only clears its parent's pointer: adding the key back restores the tree exactly |
| Deletion.ReplacementIsFound | src/main/java/org/example/binarysearchtree/BinarySearchTree.java:505-537 | Whatever takes the removed node's place (its sole child, or the node now holding the successor key) sits in that node's slot |
| Deletion.ReplacementKeepsPath | src/main/java/org/example/binarysearchtree/BinarySearchTree.java:505-537 | The replacement is reached through exactly the ancestors of the removed node |
| Rebalance.BuildInOrder | src/main/java/org/example/binarysearchtree/BinarySearchTree.java:153-160 | The median build of a range lists exactly that range in order |
| Rebalance.BalancedInOrder | src/main/java/org/example/binarysearchtree/BinarySearchTree.java:166-179 | The median build of a sequence lists that sequence in order |
| Rebalance.BalancedIsSearchTree | src/main/java/org/example/binarysearchtree/BinarySearchTree.java:166-179 | Built from strictly ascending keys, it is a search tree holding exactly those keys |
| Rebalance.BuildHeight | src/main/java/org/example/binarysearchtree/BinarySearchTree.java:153-160 | The median build of n keys has height ceil(log2(n + 1)) |
| Rebalance.BalancedHeight | src/main/java/org/example/binarysearchtree/BinarySearchTree.java:166-179 | The median build of a sequence of n keys has height ceil(log2(n + 1)) |
| Rebalance.BitsIsCeilLog2 | src/main/java/org/example/binarysearchtree/BinarySearchTree.java:166-179 | The height function used is ceil(log2(n + 1)): 2^(h-1) <= n < 2^h |
| Rebalance.MinimalHeight | src/main/java/org/example/binarysearchtree/BinarySearchTree.java:166-179 | No tree with the same number of nodes is lower than ceil(log2(n + 1)), so the median build has least height |
| Rebalance.RebalanceKeepsContent | src/main/java/org/example/binarysearchtree/BinarySearchTree.java:166-179 | Rebuilding a search tree keeps the order, the in-order listing and the key set |
| Rebalance.RebalanceHeight | src/main/java/org/example/binarysearchtree/BinarySearchTree.java:166-179 | Rebuilding gives height ceil(log2(n + 1)) for n keys, never more than before |
| Rebalance.RebalanceIdempotent | src/main/java/org/example/binarysearchtree/BinarySearchTree.java:166-179 | Rebuilding a rebuilt tree changes nothing |
| Rebalance.FortyFourKeysGiveHeightSix | src/test/java/org/example/binarysearchtree/BinarySearchTreeTest.java:97-100 | Forty-four distinct keys rebuild to height six |
| Bst.Compare | src/main/java/org/example/binarysearchtree/BinarySearchTree.java:345 | The sign of the comparison: negative exactly when x < y, positive exactly when y < x |
| Bst.MidpointInsertionsReplayPreOrder | src/main/java/org/example/binarysearchtree/BinarySearchTree.java:153-160 | Adding the midpoint key and recursing on both halves is adding the pre-order listing of the median build |
| Bst.MidpointInsertionsBuildBalanced | src/main/java/org/example/binarysearchtree/BinarySearchTree.java:153-160 | Into an empty tree, midpoint insertion of ascending keys yields exactly the median build |
| Bst.BinarySearchTree.constructor | src/main/java/org/example/binarysearchtree/BinarySearchTree.java:36-39 | A new tree is empty, with an empty index |
| Bst.BinarySearchTree.Singleton | src/main/java/org/example/binarysearchtree/BinarySearchTree.java:45-49 | A new tree holds one node with the given key, which the index lists |
| Bst.BinarySearchTree.FromArray | src/main/java/org/example/binarysearchtree/BinarySearchTree.java:55-60 | A new tree is the result of adding the array's elements in order |
| Bst.BinarySearchTree.Size | src/main/java/org/example/binarysearchtree/BinarySearchTree.java:136-144 | Returns the number of keys, which is the number of nodes and the length of each listing |
| Bst.BinarySearchTree.IsEmpty | src/main/java/org/example/binarysearchtree/BinarySearchTree.java:690-692 | True exactly when there is no node, and exactly when the index is empty |
| Bst.BinarySearchTree.Contains | src/main/java/org/example/binarysearchtree/BinarySearchTree.java:317-319 | True exactly when some node holds the key, and exactly when it is in the in-order listing |
| Bst.BinarySearchTree.GetNode | src/main/java/org/example/binarysearchtree/BinarySearchTree.java:335-353 | Returns the node holding the key (a subtree of the tree) when present, the empty node when absent |
| Bst.BinarySearchTree.GetNodeDepth | src/main/java/org/example/binarysearchtree/BinarySearchTree.java:371-391 | Returns -1 for an absent key. For a present key, returns the number of nodes on the path to it, between 1 and the height |
| Bst.BinarySearchTree.GetNodeDepthOfNode | src/main/java/org/example/binarysearchtree/BinarySearchTree.java:361-363 | The same for the key of a given node, and -1 for the empty node |
| Bst.BinarySearchTree.GetParentNode | src/main/java/org/example/binarysearchtree/BinarySearchTree.java:397-428 | Returns the node with a child holding the given node's key. The empty node exactly when that key is at the root or is absent, or the given node is empty |
| Bst.BinarySearchTree.GetHeight | src/main/java/org/example/binarysearchtree/BinarySearchTree.java:434-443 | Returns the height in nodes: 0 for the empty tree, otherwise 1 + the larger height of the two subtrees; at most the node count, with fewer than 2^h nodes |
| Bst.BinarySearchTree.Add | src/main/java/org/example/binarysearchtree/BinarySearchTree.java:261-273 | True exactly when the key was new. The tree becomes the insertion result and the index gains the key; a present key changes nothing; a new key can be removed again to give back the old tree |
| Bst.BinarySearchTree.AddAllFromArray | src/main/java/org/example/binarysearchtree/BinarySearchTree.java:280-291 | On an empty root the first element becomes the root, then each further element is added in order. False and nothing changed when an empty root meets an empty array |
| Bst.BinarySearchTree.AddAllFromList | src/main/java/org/example/binarysearchtree/BinarySearchTree.java:298-309 | The same for a list, so loading one sequence either way gives one tree |
| Bst.BinarySearchTree.Remove | src/main/java/org/example/binarysearchtree/BinarySearchTree.java:452-454 | True exactly when the key was present. The key leaves the tree and the index, every other key stays, and the order is kept. Removing the root key replaces the root |
| Bst.BinarySearchTree.RemoveNode | src/main/java/org/example/binarysearchtree/BinarySearchTree.java:465-470 | Removes the given node's key and returns it. For an empty or absent node it returns none and changes nothing |
| Bst.BinarySearchTree.AsListPreOrder | src/main/java/org/example/binarysearchtree/BinarySearchTree.java:591-595 | Returns the pre-order listing, a permutation of the in-order one |
| Bst.BinarySearchTree.AsListInOrder | src/main/java/org/example/binarysearchtree/BinarySearchTree.java:617-621 | Returns the in-order listing. It is strictly ascending and holds exactly the indexed keys |
| Bst.BinarySearchTree.AsListPostOrder | src/main/java/org/example/binarysearchtree/BinarySearchTree.java:643-647 | Returns the post-order listing, a permutation of the in-order one |
| Bst.BinarySearchTree.RecurAdd | src/main/java/org/example/binarysearchtree/BinarySearchTree.java:153-160 | Adds the midpoint key of the range, then the left half, then the right half, and keeps the invariant |
| Bst.BinarySearchTree.ReloadSorted | src/main/java/org/example/binarysearchtree/BinarySearchTree.java:172-176 | Loading ascending keys into the cleared tree gives the median build |
| Bst.BinarySearchTree.RedrawBalanced | src/main/java/org/example/binarysearchtree/BinarySearchTree.java:166-179 | The tree becomes the median build of its own in-order listing. The index and the in-order listing are unchanged, and the height becomes ceil(log2(n + 1)), never more than before |
| AsWritten.NodeWalk | src/main/java/org/example/binarysearchtree/BinarySearchTree.java:341-352 | When the walk of `getNode` ends, the path leads to a node holding the key |
| AsWritten.ParentWalk | src/main/java/org/example/binarysearchtree/BinarySearchTree.java:418-426 | When the loop of `iterGetParent` ends, the path leads to a node with a child holding the key |
| AsWritten.IterGetParent | src/main/java/org/example/binarysearchtree/BinarySearchTree.java:409-428 | A parent is returned only for a non-null key, and the path leads to a node |
| AsWritten.Leftmost | src/main/java/org/example/binarysearchtree/BinarySearchTree.java:527-530 | The successor loop stops at a node without a left child, at the end of the leftmost path |
| AsWritten.Remove | src/main/java/org/example/binarysearchtree/BinarySearchTree.java:452-537 | `remove`/`removeNode` as written: a key not in the index changes nothing and reports false; it throws for the root's key and when the node walk meets a null pointer or a null key; otherwise it unlinks a leaf, splices a sole child, or performs the written two-child steps, and whenever it returns, the index is the old one without the key and the result reports whether the key was there |
| AsWritten.ObjInOrder | src/main/java/org/example/binarysearchtree/BinarySearchTree.java:629-637 | `recurInOrder` as written: lists the starting node's key, lists only keys reachable from it, and skips every child whose key is null, so a null key can appear only as the starting node's own |
| AsWritten.ObjInOrderOfTree | src/main/java/org/example/binarysearchtree/BinarySearchTree.java:629-637 | On the nodes of a tree of non-null keys the written walk lists exactly the corrected in-order listing, in order |
| AsWritten.RootRemovalThrows | src/main/java/org/example/binarysearchtree/BinarySearchTree.java:490 | Removing the root key throws, whatever the tree |
| AsWritten.TwoChildRemovalLosesKeys | src/main/java/org/example/binarysearchtree/BinarySearchTree.java:526-537 | Removing 70 from 50(30, 70(60, 80)) as written leaves 50(null, 80(60, node with null key)) and the index {30, 50, 60, 80} |
| AsWritten.RemovalLeavesIndexAhead | src/main/java/org/example/binarysearchtree/BinarySearchTree.java:532-536 | Afterwards 30 is indexed but unreachable, and the in-order listing is 50, 60, 80 |
| AsWritten.CorrectedRemovalKeepsKeys | src/main/java/org/example/binarysearchtree/BinarySearchTree.java:457-463 | The corrected removal of 70 gives 50(30, 80(60, -)), listing 30, 50, 60, 80 |
| AsWritten.AbsentKeyWalkThrows | src/main/java/org/example/binarysearchtree/BinarySearchTree.java:418-426 | For a key no node holds, the parent loop steps onto a null pointer and throws |
| AsWritten.AbsentParentLookupThrows | src/main/java/org/example/binarysearchtree/BinarySearchTree.java:409-428 | For a node whose key is absent, the parent lookup throws, including on a tree without keys |
| AsWritten.ChildOverwritesKey | src/main/java/org/example/binarysearchtree/BinarySearchTree.java:493-501 | Clearing a parent's pointer discards the earlier write to the key of the node it led to |
| AsWritten.ParentWalkFindsParent | src/main/java/org/example/binarysearchtree/BinarySearchTree.java:409-428 | On a search tree the parent walk ends at the corrected model's parent, and the node walk one step further on the compared side |
| AsWritten.ParentPointerReset | src/main/java/org/example/binarysearchtree/BinarySearchTree.java:490-524 | Setting that parent's pointer to the removed node's replacement gives exactly the corrected removal |
| AsWritten.OffRootRemovalAgrees | src/main/java/org/example/binarysearchtree/BinarySearchTree.java:480-524 | For a key below the root whose node lacks a child (a leaf or one child), the removal as written equals the corrected removal, tree and index |
| Examples.SevenKeysShape | src/main/java/org/example/binarysearchtree/BinarySearchTree.java:280-291 | Adding 50, 30, 70, 20, 40, 60, 80 in order gives the full tree of height 3 with 50 at the root |
| Examples.FirstFourSteps | src/main/java/org/example/binarysearchtree/BinarySearchTree.java:568-585 | Each of the first four keys lands where the comparisons lead it |
| Examples.LastThreeSteps | src/main/java/org/example/binarysearchtree/BinarySearchTree.java:568-585 | Each of the last three keys lands where the comparisons lead it |
| Examples.SevenKeysTraversals | src/main/java/org/example/binarysearchtree/BinarySearchTree.java:591-663 | Its listings are 50 30 20 40 70 60 80 (pre-order), 20 30 40 50 60 70 80 (in-order) and 20 40 30 60 80 70 50 (post-order), and its height is 3 |
| Examples.SevenKeysRootRemoval | src/main/java/org/example/binarysearchtree/BinarySearchTree.java:452-454 | Removing the root key 50 moves its successor 60 into the root; the in-order listing becomes 20 30 40 60 70 80 |

## Left out

- Console narration (`printf`, `println`) is not modelled; it is advisory text, not behaviour.
- `toString` and `recursiveToString` are not modelled: they build a human-readable dump, not a format with a contract.
- `addNode` and `recurKeyPreOrd` are not modelled. They graft node objects of another tree into this one and share them between the two trees; a value model cannot express that aliasing.
- `setKey` is not modelled. It overwrites a key without any ordering check, so it can break the search-tree order by design.
- Null keys are not modelled. Keys are integers. The source's array constructor and its rebalancing of a tree without keys put `null` into the index, which `size` and `toTreeSet` then skip; the model's index holds only real keys.
- `toTreeSet` is not modelled: it copies the index into a `java.util.TreeSet`. The sorted index is what `Bst.BinarySearchTree.AsListInOrder` returns.
- `getRoot` and the node accessors `getLeftChild`, `getRightChild` and `getKey` are not modelled separately: the model reads the fields directly.
- `synchronized` on `size` and thread safety are not modelled; the class is documented as not thread-safe.
- Node identity is not modelled. `getNode` and `getParentNode` return the subtree as a value, not a shared object, so "the same object" (`assertSame`) has no counterpart.
- Bst.BinarySearchTree.RemoveNode: a node handle is identified by its key. A node of another tree whose key is also present here removes this tree's node; the source would then use the foreign node's children.
- Bst.BinarySearchTree.FromArray: requires a non-empty array. For an empty one the source throws an index exception at line 283, and a constructor cannot report failure.
- Bst.BinarySearchTree.AsListPreOrder: on a tree without keys the model lists [] where the source lists the null root key.
- Bst.BinarySearchTree.AsListInOrder: on a tree without keys the model lists [] where the source lists the null root key.
- Bst.BinarySearchTree.AsListPostOrder: on a tree without keys the model lists [] where the source lists the null root key.
- Bst.BinarySearchTree.AddAllFromArray: on an empty root with an empty array the source throws an index exception at line 283 before writing anything, and returns nothing otherwise; the model records that exception as a `false` result with the tree and index unchanged, and returns `true` in every other case.
- Bst.BinarySearchTree.AddAllFromList: on an empty root with an empty list the source throws an index exception at line 301 before writing anything, and returns nothing otherwise; the model records that exception as a `false` result with the tree and index unchanged, and returns `true` in every other case.
- Bst.BinarySearchTree.RecurAdd: the recursion on the left half is guarded by `left <= mid - 1`. When `mid == left`, the source recurses on the empty range and adds `ordKeys[mid]` of that range again. That key was already added by an enclosing call (or by this one, when `left == 0`), so `add` rejects it and nothing changes.
- Bst.BinarySearchTree.RedrawBalanced: on a tree without keys, the source clears the index, then adds the null root key to it; the model leaves the tree empty with an empty index.
- Integer width is not modelled: depths, heights and sizes are unbounded integers. They never come near the 32-bit limit for trees that fit in memory.
- The loops of `getNode`, `getNodeDepth`, `iterGetParent` and the bulk loads are methods with loop invariants. `checkAndPlace`, `recurCheckDepth` and the traversal helpers, which are recursions in the source, are recursive functions. Pointer updates are replaced by rebuilding the path to the changed node.

## Findings

| source | as written | input that shows it | evidently intended | confidence | as-written member | corrected member |
|---|---|---|---|---|---|---|
| src/main/java/org/example/binarysearchtree/BinarySearchTree.java:490 | The removed key is compared with the key of the parent found for it. For the root that parent is the shared empty node, whose key is null, so `compareTo(null)` throws | `remove(50)` on the tree loaded with 50, 30, 70 (removing any root key) | the root is replaced like any other removed node | not executed | AsWritten.RootRemovalThrows | Bst.BinarySearchTree.Remove |
| src/main/java/org/example/binarysearchtree/BinarySearchTree.java:526-537 | For two children, the successor's node keeps its place with a null key and loses its right subtree. Then the left pointer of the parent of the node now holding the successor key is cleared, which cuts off a sibling subtree or the node itself | `remove(70)` on the tree loaded with 50, 30, 70, 60, 80 leaves 30 in the index but unreachable, and a null-keyed node under 80 | the successor is spliced out and replaced by its right child, and nothing else changes | not executed | AsWritten.TwoChildRemovalLosesKeys | Deletion.RemoveRoot |
| src/main/java/org/example/binarysearchtree/BinarySearchTree.java:409-428 | For a node whose key is not in the tree, the loop walks onto a null pointer and throws. It also throws on a tree without keys, where the root key is null. The documentation at lines 392-396 promises the empty node | `getParentNode` on the tree holding only 50, for the node holding 60 of another tree | the empty node is returned | not executed | AsWritten.AbsentParentLookupThrows | Bst.BinarySearchTree.GetParentNode |
