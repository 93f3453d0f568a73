# Ordered key/value trees: an AVL tree and a plain binary search tree

This project models two Java classes, `AVLTree` and `BinarySearchTree`. Each stores
(key, value) pairs in a binary tree ordered by key. Each offers insert, search by key,
delete by key, an in-order listing of the values (`inorderRec`) and the 1-indexed
k-th smallest value (`kthSmallest`).

- `AVLTree` keeps a cached height in every node. Insert and delete are recursive: they
  rebuild the path back to the root and rebalance every node on it with at most two
  rotations.
- `BinarySearchTree` has no balancing. Its insert and delete are loops that walk a
  `pointer`/`parent` pair down from the root. Its `helpDelete` splices a node out. A node
  with two children first takes its successor's key and value, and then the successor's
  node is spliced out.

Equal keys go right in both trees.

The three modules:

- `OrderedEntries` (`entries.dfy`) is the common vocabulary. The in-order sequence of
  entries is the specification of a tree's contents. `InsertEntry` places an entry after
  every entry whose key is at most its own key. `RemoveFirstKey` drops the first entry
  with a key. `Sorted` and `StrictlySorted` are the two orderings. `Get` models
  `List.get` together with its `IndexOutOfBoundsException`.
- `AVL` (`avl.dfy`) models the nodes as an immutable datatype that carries the cached
  height. Every Java routine that mutates nodes and returns the new subtree root
  (rotations, `rebalanceNode`, `recurInsert`, `recurDelete`) becomes a function that
  returns the rebuilt subtree. The class `AVL.AVLTree` holds `root` and reassigns it,
  as `insert` and `delete` do.
- `BST` (`bst.dfy`) models a node reference as a path of `L`/`R` steps from the root.
  A write through a pointer (`root = …`, `parent.left = …`, `nodeToDelete.key = …`)
  becomes `root := ReplaceAt(root, path, …)`. The loops of `insert`, `delete` and
  `helpDelete` are Dafny `while` loops over these paths. The insert loop's invariants tie
  it to `Inserted`, the reference definition of the result. The find loop of `delete`
  keeps two facts: no entry before the current node has the key, and the key is in the
  tree exactly when it is in the current subtree. The successor walk of
  `helpDelete` is tied to `Leftmost`, and the method as a whole is proved equal to `Spliced`.

Keys are `int`, the Java `null` search result is `Option.None`, and the out-of-range
exception of `kthSmallest` is `Result.Err(OutOfRange)`.

The ordering each class keeps:

- `BST.Ordered`: left keys are strictly smaller than a node's key, and right keys are at
  least its key. This is the rule stated in the class comments of both files.
- The AVL tree keeps only non-decreasing in-order keys (`Sorted`). With duplicate keys a
  rotation can move a key equal to a node's key into that node's left subtree, so the
  strict rule of the class comment at AVLTree.java:2 does not hold there.
  `AVL.EqualKeysBreakStrictLeft` shows it: inserting one key three times does it. The
  model follows the code.

The rotation test at AVLTree.java:122 and :133 is a parameter, `AVL.TieRule`:

- `DoubleOnTie` is the code as written (`<=` / `>=`).
- `SingleOnTie` uses strict comparisons.

On balanced trees insertion is identical under both rules (`AVL.InsertRuleIrrelevant`).
Deletion is not: see "## Findings". The class `AVL.AVLTree` uses `DoubleOnTie`, the code as
written. Its invariant is therefore correct heights and ordered keys. Insert keeps a balanced
tree balanced. Balance after delete is proved only for the strict rule, by
`AVL.DeleteKeepsBalance`.

## Model

| member | source | states |
|---|---|---|
| AVL.GetNodeHeight | AVLTree.java:46-55 | with correct cached heights, `getNodeHeight` returns the true height of the subtree: -1 for an empty subtree |
| AVL.CachedHeightIsReal | AVLTree.java:46-55 | with correct cached heights, every node's cached height is its true height, 0 or more |
| AVL.GetNodeBalance | AVLTree.java:69-78 | with correct cached heights, the balance of a node is the true height of its right subtree minus that of its left; in a balanced tree it lies in [-1, 1] |
| AVL.UpdateNodeHeight | AVLTree.java:61-63 | only the cached height changes; with correct child heights the node's height becomes correct, namely 1 + the larger child height |
| AVL.LeftRotate | AVLTree.java:84-92 | requires a right child (the null-safety of line 85); the former right child becomes the root with the node as its left child; in-order entries are unchanged; cached heights stay correct |
| AVL.RightRotate | AVLTree.java:98-106 | mirror of LeftRotate: requires a left child; in-order entries are unchanged; cached heights stay correct |
| AVL.RebalanceNode | AVLTree.java:112-139 | with correct child heights, its preconditions prove every child that lines 122-136 dereference non-null; the result is a node with correct cached heights |
| AVL.RotateLeftChildFirst | AVLTree.java:122-124 | when the test chooses the extra rotation of `node.left`, and that child has correct heights and height at least 1 (as a child two levels taller than its sibling has), its right child is non-null, so `leftRotate(node.left)` is safe |
| AVL.RotateRightChildFirst | AVLTree.java:133-135 | mirror of RotateLeftChildFirst: the extra rotation of `node.right` finds a non-null left child |
| AVL.TieRulesDifferOnLevel | AVLTree.java:122-135 | the `<=`/`>=` tests and the strict ones choose differently exactly when the heavy child's balance is 0 |
| AVL.RebalanceKeepsEntries | AVLTree.java:112-139 | rebalancing never changes the in-order sequence of (key, value) entries, under either tie rule |
| AVL.RebalanceWithinBound | AVLTree.java:112-139 | when the balance factor is already in [-1, 1], rebalancing only recomputes the height, and the result is balanced |
| AVL.RebalanceBalanced | AVLTree.java:112-139 | rebalancing a node that already meets the AVL invariant returns it unchanged |
| AVL.RebalanceLeftHeavy | AVLTree.java:121-126 | a node two levels left-heavy with balanced children becomes balanced under the strict rule, or under the `<=` rule when the left child is not level; its height is at most one more than the left child's, and equal to it when the left child is not level |
| AVL.RebalanceRightHeavy | AVLTree.java:132-137 | mirror of RebalanceLeftHeavy for the right-heavy case: balanced under the strict rule, or under the `>=` rule when the right child is not level |
| AVL.RecurInsert | AVLTree.java:145-160 | the result is a non-empty tree with correct cached heights |
| AVL.InsertEntries | AVLTree.java:145-160 | the new in-order entries are the old ones with (key, value) placed after every entry whose key is at most key (equal keys go right) |
| AVL.InsertSortedAndSize | AVLTree.java:145-160 | insert keeps in-order keys non-decreasing, adds exactly one node and adds key to the key set |
| AVL.InsertKeepsBalanced | AVLTree.java:145-160 | from a balanced tree, insert (under either tie rule) gives a balanced tree whose height grew by 0 or 1, and a tree that grew has a non-level root |
| AVL.InsertRuleIrrelevant | AVLTree.java:145-160 | on a balanced tree the `<=`/`>=` tie rule and the strict one give the same insert result |
| AVL.RecurSearch | AVLTree.java:174-192 | a node found by the descent holds the searched key and one of the tree's entries |
| AVL.SearchComplete | AVLTree.java:174-192 | on a tree with non-decreasing in-order keys the descent finds nothing exactly when the key is absent |
| AVL.FindSmallestDescendant | AVLTree.java:215-225 | the leftmost node has no left child and holds the first in-order entry |
| AVL.RecurDelete | AVLTree.java:231-265 | cached heights stay correct after delete, under either tie rule |
| AVL.DeleteAbsent | AVLTree.java:231-265 | deleting an absent key (including from an empty tree) leaves the in-order entries unchanged |
| AVL.DeleteSortedAndSize | AVLTree.java:231-265 | delete keeps in-order keys non-decreasing, adds no key, and removes one node when the key is present and none otherwise |
| AVL.DeleteEntries | AVLTree.java:231-265 | for distinct keys, delete removes exactly the entry with that key from the in-order sequence |
| AVL.DeleteKeepsBalance | AVLTree.java:231-265 | with the strict tie rule, delete from a balanced tree gives a balanced tree whose height dropped by 0 or 1 |
| AVL.DeleteCanBreakBalance | AVLTree.java:121-137 | for a balanced tree of the shape that inserting 10, 5, 12, 3, 7, 13, 2, 8 builds, deleting the key of the right child's right leaf (13) leaves an unbalanced tree under the `<=`/`>=` rule and a balanced one under the strict rule |
| AVL.EqualKeysBreakStrictLeft | AVLTree.java:2 | inserting one key three times leaves in-order keys non-decreasing, but violates the rule "left subtree keys are strictly smaller" |
| AVL.AVLTree.constructor | AVLTree.java:38-40 | a new tree is empty, balanced and satisfies the class invariant (correct heights, keys in order) |
| AVL.AVLTree.Insert | AVLTree.java:166-168 | the new root is `recurInsert` of the old one with the tests as written; keeps the invariant and keeps a balanced tree balanced; entries become InsertEntry of the old ones; key set gains key; size grows by exactly one |
| AVL.AVLTree.Search | AVLTree.java:198-209 | a value returned belongs to an entry with that key; None is returned exactly when no entry has the key |
| AVL.AVLTree.Delete | AVLTree.java:271-273 | the new root is `recurDelete` of the old one with the tests as written; keeps the invariant (correct heights, keys in order); adds no key; size drops by one exactly when the key is present; an absent key changes no entry; with distinct keys exactly the key's entry is removed |
| AVL.AVLTree.RecurInorder | AVLTree.java:279-290 | appends the subtree's values in in-order to the list |
| AVL.AVLTree.InorderRec | AVLTree.java:296-306 | returns the values of the in-order entries, as many as there are nodes (none for an empty tree) |
| AVL.AVLTree.KthSmallest | AVLTree.java:312-317 | succeeds exactly for 1 <= k <= size and then returns the value of the k-th in-order entry; otherwise the out-of-range error |
| BST.OrderedIsSorted | BinarySearchTree.java:2 | a tree with left keys smaller and right keys at least the node's key has non-decreasing in-order keys |
| BST.InsertedEntries | BinarySearchTree.java:43-78 | on an ordered tree the new in-order entries are the old ones with (key, value) placed after every entry whose key is at most key |
| BST.InsertedOrdered | BinarySearchTree.java:43-78 | insert keeps the tree ordered and adds key to the key set |
| BST.InsertedSize | BinarySearchTree.java:43-78 | insert adds exactly one node |
| BST.RecurSearch | BinarySearchTree.java:84-102 | a node found by the descent holds the searched key and one of the tree's entries |
| BST.SearchComplete | BinarySearchTree.java:84-102 | on an ordered tree the descent finds nothing exactly when the key is absent |
| BST.DescentStep | BinarySearchTree.java:176-184 | one step of the find loop keeps "the key is in the tree iff it is below pointer" and "the key occurs in no entry before pointer's subtree" |
| BST.Leftmost | BinarySearchTree.java:146-152 | the node the successor walk stops at has no left child |
| BST.LeftmostIsMin | BinarySearchTree.java:146-152 | in an ordered tree that node holds a smallest key |
| BST.RemoveMinEntries | BinarySearchTree.java:146-156 | the walked-to node holds the first in-order entry, and removing it drops exactly that entry |
| BST.ChildSide | BinarySearchTree.java:132-138 | in an ordered tree a child is the left child exactly when its key is smaller than its parent's key |
| BST.ParentSlot | BinarySearchTree.java:128-139 | the slot picked by comparing the node's key with its parent's key is the slot that holds the node |
| BST.CopySuccessorOrdered | BinarySearchTree.java:153-154 | copying the successor's key and value into a two-child node keeps the tree ordered and adds no key |
| BST.SuccessorSplice | BinarySearchTree.java:146-156 | after the copy, splicing out the successor's node (whose parent may be the node itself) leaves the node's splice in its slot |
| BST.SplicedEntries | BinarySearchTree.java:125-157 | splicing out a node drops exactly that node's own entry from its subtree's in-order sequence |
| BST.SplicedOrdered | BinarySearchTree.java:125-157 | splicing keeps the subtree ordered and adds no key |
| BST.DeleteAtEntries | BinarySearchTree.java:163-190 | splicing out the first node the find loop meets with the key removes exactly the first in-order entry with that key |
| BST.Inserted | BinarySearchTree.java:43-78 | the reference definition of insert: a new leaf in the empty slot the comparisons lead to; the result is never empty |
| BST.Spliced | BinarySearchTree.java:125-157 | the reference definition of what the deleted node's slot ends up holding; it is empty exactly when the node had no children |
| BST.BinarySearchTree.constructor | BinarySearchTree.java:35-37 | a new tree is empty and ordered |
| BST.BinarySearchTree.Insert | BinarySearchTree.java:43-78 | the new tree is `Inserted` of the old one: a single node on an empty tree, otherwise a leaf in the empty slot the comparisons `key < pointer.key` lead to, attached on the side `key < parent.key` picks; the tree stays ordered, entries become InsertEntry of the old ones, key set gains key, size grows by one |
| BST.BinarySearchTree.Search | BinarySearchTree.java:108-119 | a value returned belongs to an entry with that key; None is returned exactly when no entry has the key |
| BST.BinarySearchTree.HelpDelete | BinarySearchTree.java:125-157 | the node's slot (root or parent's child) receives the node's splice; the recursive call for the successor ends because the successor has no left child; the tree stays ordered |
| BST.BinarySearchTree.Delete | BinarySearchTree.java:163-190 | keeps the tree ordered; entries become the old ones minus the first entry with the key (duplicates included); an absent key or an empty tree changes nothing; size drops by one exactly when the key is present |
| BST.BinarySearchTree.RecurInorder | BinarySearchTree.java:196-207 | appends the subtree's values in in-order to the list |
| BST.BinarySearchTree.InorderRec | BinarySearchTree.java:213-223 | returns the values of the in-order entries, as many as there are nodes |
| BST.BinarySearchTree.KthSmallest | BinarySearchTree.java:229-234 | succeeds exactly for 1 <= k <= size and then returns the value of the k-th in-order entry; otherwise the out-of-range error |

## Left out

- Object identity, aliasing and in-place update of nodes. AVL nodes are values rebuilt on the way up. BST node references are root paths, and a field write is a `ReplaceAt` on `root`. Both are sound because no node is shared.
- `TreeWithComparableKey.java`: it holds only method signatures. The two classes offer the same members without a shared interface.
- Generic `Comparable` keys: keys are `int`, a total order. Inconsistent `compareTo` implementations are not modelled.
- `java.util.LinkedList`: modelled as `seq<V>`. The exception of `list.get` is an error result.
- The double `recurSearch` call in both `search` methods is modelled as one call, since the descent has no side effects.
- Time complexity claims (O(log N), O(N)) are not modelled. No height bound in terms of the node count is proved.
- `AVLTreeTester.java`: its scenarios are not restated as lemmas about concrete trees. Its properties (empty search, absent delete, kthSmallest out of range, entries after delete) are covered by the general contracts. `AVL.DeleteCanBreakBalance` is stated for every tree of the critical shape rather than the concrete one.
- AVL.AVLTree.Delete: states the exact entry sequence only when keys are distinct. With duplicates, the re-search at AVLTree.java:254 may remove an equal-key entry other than the copied successor.
- AVL.DeleteEntries: proved only for strictly increasing in-order keys, for the same reason.
- AVL.AVLTree.Delete: does not promise that a balanced tree stays balanced, because with the rotation tests as written it does not (see "## Findings"); `AVL.DeleteKeepsBalance` proves it for the strict rule.

## Findings

| source | as written | input that shows it | evidently intended | confidence | as-written member | corrected member |
|---|---|---|---|---|---|---|
| AVLTree.java:122 and AVLTree.java:133 | the double rotation is taken also when the heavy child is level (`<=` / `>=`) | insert 10, 5, 12, 3, 7, 13, 2, 8, then delete 13: the double rotation at the root 10 leaves node 5 with only a left child of height 1, a balance of -2 | a single rotation when the heavy child is level (`<` / `>`), which keeps every balance factor in [-1, 1] after delete | not executed | AVL.DeleteCanBreakBalance | AVL.DeleteKeepsBalance |
