/**
 * The height-balanced tree of AVLTree.java.
 *
 * The Java nodes are mutable objects exclusively owned by their parent, and
 * every mutating helper returns the new root of the subtree it was given.
 * Here a node is a value: each helper returns the rebuilt subtree, which is
 * exactly what the Java caller stores back into `node.left`, `node.right` or
 * `root`.
 */
module AVL {
  import opened OrderedEntries

  /** `AVLNode`: key, value, cached height and the two owned children (Nil is `null`). */
  datatype Tree<V> = Nil | Node(key: int, value: V, height: int, left: Tree<V>, right: Tree<V>)

  /**
   * Which rotation `rebalanceNode` picks when the heavy child is itself
   * balanced. The source tests `<=` (line 122) and `>=` (line 133), and so
   * double-rotates in that case (DoubleOnTie); the standard AVL rule, which
   * single-rotates, is SingleOnTie.
   */
  datatype TieRule = DoubleOnTie | SingleOnTie

  // ---------------------------------------------------------------------
  // Abstract views of a subtree

  /** The (key, value) pairs in in-order position. */
  function Entries<V>(t: Tree<V>): seq<Entry<V>>
  {
    match t
    case Nil => []
    case Node(k, v, _, l, r) => Entries(l) + [Entry(k, v)] + Entries(r)
  }

  function Keys<V>(t: Tree<V>): set<int>
  {
    KeysOf(Entries(t))
  }

  /** The number of nodes. */
  function Size<V>(t: Tree<V>): nat
  {
    match t
    case Nil => 0
    case Node(_, _, _, l, r) => Size(l) + 1 + Size(r)
  }

  /** The true height: the longest downward path to an empty subtree; -1 when empty. */
  function RealHeight<V>(t: Tree<V>): int
  {
    match t
    case Nil => -1
    case Node(_, _, _, l, r) => 1 + Max(RealHeight(l), RealHeight(r))
  }

  function Max(a: int, b: int): int
  {
    if a < b then b else a
  }

  /** Every cached height equals one more than the larger cached height of its children. */
  ghost predicate HeightsOk<V>(t: Tree<V>)
    decreases t, 0
  {
    match t
    case Nil => true
    case Node(_, _, h, l, r) =>
      HeightsOk(l) && HeightsOk(r) && h == 1 + Max(GetNodeHeight(l), GetNodeHeight(r))
  }

  /** The AVL invariant: correct heights and every balance factor in [-1, 1]. */
  ghost predicate Balanced<V>(t: Tree<V>)
  {
    HeightsOk(t) && BalanceFactorsOk(t)
  }

  ghost predicate BalanceFactorsOk<V>(t: Tree<V>)
  {
    match t
    case Nil => true
    case Node(_, _, _, l, r) =>
      BalanceFactorsOk(l) && BalanceFactorsOk(r) && -1 <= GetNodeHeight(r) - GetNodeHeight(l) <= 1
  }

  // ---------------------------------------------------------------------
  // Height bookkeeping (AVLTree.java:46-78)

  /**
   * `getNodeHeight`: -1 for an empty subtree, the cached height otherwise;
   * with correct cached heights, the true height.
   */
  function GetNodeHeight<V>(t: Tree<V>): (h: int)
    ensures HeightsOk(t) ==> h == RealHeight(t) >= -1
    decreases t, 2
  {
    CachedHeightIsReal(t);
    if t == Nil then -1 else t.height
  }

  /** `updateNodeHeight`: recompute the cached height from the children's. */
  function UpdateNodeHeight<V>(n: Tree<V>): (r: Tree<V>)
    requires n.Node?
    ensures r.Node? && r.key == n.key && r.value == n.value && r.left == n.left && r.right == n.right
    ensures Entries(r) == Entries(n)
    ensures HeightsOk(n.left) && HeightsOk(n.right) ==> HeightsOk(r) && GetNodeHeight(r) == RealHeight(n)
  {
    n.(height := Max(GetNodeHeight(n.left), GetNodeHeight(n.right)) + 1)
  }

  /** `getNodeBalance`: right height minus left height; 0 for an empty subtree. */
  function GetNodeBalance<V>(t: Tree<V>): (b: int)
    ensures HeightsOk(t) && t.Node? ==> b == RealHeight(t.right) - RealHeight(t.left)
    ensures Balanced(t) ==> -1 <= b <= 1
  {
    if t == Nil then 0
    else
      GetNodeHeight(t.right) - GetNodeHeight(t.left)
  }

  /** With correct cached heights, a node's cached height is its true height. */
  lemma {:induction false} CachedHeightIsReal<V>(t: Tree<V>)
    ensures HeightsOk(t) && t.Node? ==> t.height == RealHeight(t) >= 0
    decreases t, 1
  {
    if t.Node? {
      CachedHeightIsReal(t.left);
      CachedHeightIsReal(t.right);
    }
  }

  // ---------------------------------------------------------------------
  // Rotations (AVLTree.java:84-106)

  /**
   * `leftRotate`: the right child becomes the subtree root, the old root its
   * left child, and the right child's former left subtree moves under the old
   * root. Only `node.right` must be non-null.
   */
  function LeftRotate<V>(n: Tree<V>): (r: Tree<V>)
    requires n.Node? && n.right.Node?
    ensures r.Node? && r.key == n.right.key && r.value == n.right.value
    ensures r.left.Node? && r.left.key == n.key && r.left.value == n.value
    ensures r.left.left == n.left && r.left.right == n.right.left && r.right == n.right.right
    ensures Entries(r) == Entries(n)
    ensures HeightsOk(n.left) && HeightsOk(n.right) ==> HeightsOk(r)
  {
    var rotatedNode := n.right;
    var movedNode := rotatedNode.left;
    var node := UpdateNodeHeight(n.(right := movedNode));
    UpdateNodeHeight(rotatedNode.(left := node))
  }

  /** `rightRotate`: the mirror image; only `node.left` must be non-null. */
  function RightRotate<V>(n: Tree<V>): (r: Tree<V>)
    requires n.Node? && n.left.Node?
    ensures r.Node? && r.key == n.left.key && r.value == n.left.value
    ensures r.right.Node? && r.right.key == n.key && r.right.value == n.value
    ensures r.right.right == n.right && r.right.left == n.left.right && r.left == n.left.left
    ensures Entries(r) == Entries(n)
    ensures HeightsOk(n.left) && HeightsOk(n.right) ==> HeightsOk(r)
  {
    var rotatedNode := n.left;
    var movedNode := rotatedNode.right;
    var node := UpdateNodeHeight(n.(left := movedNode));
    UpdateNodeHeight(rotatedNode.(right := node))
  }

  // ---------------------------------------------------------------------
  // Rebalancing (AVLTree.java:112-139)

  /** The test at line 122 (left-heavy) under a tie rule: rotate `node.left` first? */
  function RotateLeftChildFirst<V>(l: Tree<V>, rule: TieRule): (b: bool)
    requires l.Node?
    ensures b && HeightsOk(l) && GetNodeHeight(l) >= 1 ==> l.right.Node?
  {
    if rule == DoubleOnTie then GetNodeHeight(l.left) <= GetNodeHeight(l.right)
    else GetNodeHeight(l.left) < GetNodeHeight(l.right)
  }

  /** The test at line 133 (right-heavy) under a tie rule: rotate `node.right` first? */
  function RotateRightChildFirst<V>(r: Tree<V>, rule: TieRule): (b: bool)
    requires r.Node?
    ensures b && HeightsOk(r) && GetNodeHeight(r) >= 1 ==> r.left.Node?
  {
    if rule == DoubleOnTie then GetNodeHeight(r.left) >= GetNodeHeight(r.right)
    else GetNodeHeight(r.left) > GetNodeHeight(r.right)
  }

  /** The two tie rules pick different rotations exactly when the heavy child is level. */
  lemma TieRulesDifferOnLevel<V>(c: Tree<V>)
    requires c.Node?
    ensures RotateLeftChildFirst(c, DoubleOnTie) != RotateLeftChildFirst(c, SingleOnTie) <==> GetNodeBalance(c) == 0
    ensures RotateRightChildFirst(c, DoubleOnTie) != RotateRightChildFirst(c, SingleOnTie) <==> GetNodeBalance(c) == 0
  {
  }

  /**
   * `rebalanceNode`: update the height, then rotate when the balance factor
   * is below -1 or above 1. The preconditions of the rotation calls are the
   * source's null-safety: with correct child heights, balance < -1 forces
   * `node.left != null`, and the line-122 test forces `node.left.right != null`
   * (symmetrically on the right).
   */
  function RebalanceNode<V>(n: Tree<V>, rule: TieRule): (r: Tree<V>)
    requires n.Node? && HeightsOk(n.left) && HeightsOk(n.right)
    ensures r.Node? && HeightsOk(r)
  {
    var node := UpdateNodeHeight(n);
    var nodeBalance := GetNodeBalance(node);
    if nodeBalance < -1 then
      var node := if RotateLeftChildFirst(node.left, rule) then node.(left := LeftRotate(node.left)) else node;
      RightRotate(node)
    else if nodeBalance > 1 then
      var node := if RotateRightChildFirst(node.right, rule) then node.(right := RightRotate(node.right)) else node;
      LeftRotate(node)
    else
      node
  }

  // ---------------------------------------------------------------------
  // Insert, search, delete (AVLTree.java:145-273)

  /** Rebalancing never changes the in-order sequence of entries. */
  lemma RebalanceKeepsEntries<V>(n: Tree<V>, rule: TieRule)
    requires n.Node? && HeightsOk(n.left) && HeightsOk(n.right)
    ensures Entries(RebalanceNode(n, rule)) == Entries(n)
  {
    var node := UpdateNodeHeight(n);
    if GetNodeBalance(node) < -1 {
      var m := if RotateLeftChildFirst(node.left, rule) then node.(left := LeftRotate(node.left)) else node;
      assert Entries(m) == Entries(n);
      assert RebalanceNode(n, rule) == RightRotate(m);
    } else if GetNodeBalance(node) > 1 {
      var m := if RotateRightChildFirst(node.right, rule) then node.(right := RightRotate(node.right)) else node;
      assert Entries(m) == Entries(n);
      assert RebalanceNode(n, rule) == LeftRotate(m);
    }
  }

  /**
   * `recurInsert`: descend right on key >= node.key, left otherwise, attach a
   * fresh leaf (height 0) at the empty position and rebalance every node on
   * the way back up.
   */
  function RecurInsert<V>(t: Tree<V>, key: int, value: V, rule: TieRule): (r: Tree<V>)
    requires HeightsOk(t)
    ensures r.Node? && HeightsOk(r)
  {
    if t == Nil then Node(key, value, 0, Nil, Nil)
    else if key >= t.key then RebalanceNode(t.(right := RecurInsert(t.right, key, value, rule)), rule)
    else RebalanceNode(t.(left := RecurInsert(t.left, key, value, rule)), rule)
  }

  /** `recurSearch`: the first node on the comparison descent whose key equals `key`. */
  function RecurSearch<V>(t: Tree<V>, key: int): (r: Tree<V>)
    ensures r.Node? ==> r.key == key && Entry(r.key, r.value) in Entries(t)
  {
    if t == Nil then Nil
    else if key == t.key then t
    else if key > t.key then RecurSearch(t.right, key)
    else RecurSearch(t.left, key)
  }

  /**
   * `findSmallestDescendant`: follow left children to the leftmost node, which
   * has no left child and holds the first entry in order.
   */
  function FindSmallestDescendant<V>(t: Tree<V>): (r: Tree<V>)
    requires t.Node?
    ensures r.Node? && r.left == Nil
    ensures Entries(t) != [] && Entries(t)[0] == Entry(r.key, r.value)
  {
    if t.left == Nil then t else FindSmallestDescendant(t.left)
  }

  /**
   * `recurDelete`: descend by comparison; at the first node whose key equals
   * `key`, splice out a node with fewer than two children, or copy in the
   * leftmost entry of the right subtree and delete that entry's key from the
   * right subtree (line 254 searches again by key); then rebalance every
   * non-empty subtree on the way back up.
   */
  function RecurDelete<V>(t: Tree<V>, key: int, rule: TieRule): (r: Tree<V>)
    requires HeightsOk(t)
    ensures HeightsOk(r)
  {
    if t == Nil then t
    else if key < t.key then RebalanceNode(t.(left := RecurDelete(t.left, key, rule)), rule)
    else if key > t.key then RebalanceNode(t.(right := RecurDelete(t.right, key, rule)), rule)
    else if t.left != Nil && t.right != Nil then
      var rightSmallestDescendant := FindSmallestDescendant(t.right);
      // the copy keeps t.right, so the re-search runs on the same subtree
      RebalanceNode(t.(key := rightSmallestDescendant.key, value := rightSmallestDescendant.value,
                       right := RecurDelete(t.right, rightSmallestDescendant.key, rule)), rule)
    else
      var node := if t.left != Nil then t.left else t.right;
      assert HeightsOk(node);
      if node != Nil then RebalanceNode(node, rule) else node
  }

  // ---------------------------------------------------------------------
  // In-order listing: insert, search and delete against the list specification

  lemma {:induction false} SizeIsLength<V>(t: Tree<V>)
    ensures Size(t) == |Entries(t)|
  {
    if t.Node? {
      SizeIsLength(t.left);
      SizeIsLength(t.right);
    }
  }

  /** Keys(t) is the union of the children's keys and the node's own key. */
  lemma KeysOfNode<V>(t: Tree<V>)
    requires t.Node?
    ensures Keys(t) == Keys(t.left) + {t.key} + Keys(t.right)
  {
    KeysOfAppend(Entries(t.left) + [Entry(t.key, t.value)], Entries(t.right));
    KeysOfAppend(Entries(t.left), [Entry(t.key, t.value)]);
  }

  /** In a sorted tree, left keys are at most the node key and right keys at least it. */
  lemma SortedNode<V>(t: Tree<V>)
    requires t.Node? && Sorted(Entries(t))
    ensures Sorted(Entries(t.left)) && Sorted(Entries(t.right))
    ensures forall i :: 0 <= i < |Entries(t.left)| ==> Entries(t.left)[i].key <= t.key
    ensures forall i :: 0 <= i < |Entries(t.right)| ==> t.key <= Entries(t.right)[i].key
    ensures forall x :: x in KeysOf(Entries(t.left)) ==> x <= t.key
    ensures forall x :: x in KeysOf(Entries(t.right)) ==> t.key <= x
    ensures Keys(t) == Keys(t.left) + {t.key} + Keys(t.right)
  {
    SortedSplit(Entries(t.left), Entry(t.key, t.value), Entries(t.right));
    KeysOfAtMost(Entries(t.left), t.key);
    KeysOfAtLeast(Entries(t.right), t.key);
    KeysOfNode(t);
  }

  lemma StrictlySortedNode<V>(t: Tree<V>)
    requires t.Node? && StrictlySorted(Entries(t))
    ensures StrictlySorted(Entries(t.left)) && StrictlySorted(Entries(t.right))
    ensures forall x :: x in KeysOf(Entries(t.left)) ==> x < t.key
    ensures forall x :: x in KeysOf(Entries(t.right)) ==> t.key < x
  {
    StrictlySortedSplit(Entries(t.left), Entry(t.key, t.value), Entries(t.right));
    KeysOfAtMost(Entries(t.left), t.key - 1);
    KeysOfAtLeast(Entries(t.right), t.key + 1);
  }

  /**
   * `insert` adds exactly the new entry, placed after every entry whose key
   * is at most `key` (equal keys go right), under either tie rule.
   */
  lemma {:induction false} InsertEntries<V>(t: Tree<V>, key: int, value: V, rule: TieRule)
    requires HeightsOk(t) && Sorted(Entries(t))
    ensures Entries(RecurInsert(t, key, value, rule)) == InsertEntry(Entries(t), key, value)
  {
    if t.Node? {
      SortedNode(t);
      if key >= t.key {
        InsertEntries(t.right, key, value, rule);
        InsertEntriesRight(t, key, value, rule);
      } else {
        InsertEntries(t.left, key, value, rule);
        InsertEntriesLeft(t, key, value, rule);
      }
    }
  }

  lemma InsertEntriesRight<V>(t: Tree<V>, key: int, value: V, rule: TieRule)
    requires HeightsOk(t) && Sorted(Entries(t)) && t.Node? && key >= t.key
    requires Entries(RecurInsert(t.right, key, value, rule)) == InsertEntry(Entries(t.right), key, value)
    ensures Entries(RecurInsert(t, key, value, rule)) == InsertEntry(Entries(t), key, value)
  {
    SortedNode(t);
    var n := [Entry(t.key, t.value)];
    RebalanceKeepsEntries(t.(right := RecurInsert(t.right, key, value, rule)), rule);
    InsertEntryAfter(Entries(t.left) + n, Entries(t.right), key, value);
  }

  lemma InsertEntriesLeft<V>(t: Tree<V>, key: int, value: V, rule: TieRule)
    requires HeightsOk(t) && t.Node? && key < t.key
    requires Entries(RecurInsert(t.left, key, value, rule)) == InsertEntry(Entries(t.left), key, value)
    ensures Entries(RecurInsert(t, key, value, rule)) == InsertEntry(Entries(t), key, value)
  {
    InsertDescendLeft(t, key, value, rule);
    InsertEntryBeforeNode(Entries(t.left), Entry(t.key, t.value), Entries(t.right), key, value);
  }

  /** Below a node with a larger key, insert works in the left subtree only. */
  lemma InsertDescendLeft<V>(t: Tree<V>, key: int, value: V, rule: TieRule)
    requires HeightsOk(t) && t.Node? && key < t.key
    ensures Entries(RecurInsert(t, key, value, rule))
      == Entries(RecurInsert(t.left, key, value, rule)) + [Entry(t.key, t.value)] + Entries(t.right)
  {
    var n := t.(left := RecurInsert(t.left, key, value, rule));
    assert RecurInsert(t, key, value, rule) == RebalanceNode(n, rule);
    RebalanceKeepsEntries(n, rule);
  }

  /** Insert keeps the in-order keys non-decreasing and grows the tree by one node. */
  lemma InsertSortedAndSize<V>(t: Tree<V>, key: int, value: V, rule: TieRule)
    requires HeightsOk(t) && Sorted(Entries(t))
    ensures Sorted(Entries(RecurInsert(t, key, value, rule)))
    ensures Size(RecurInsert(t, key, value, rule)) == Size(t) + 1
    ensures Keys(RecurInsert(t, key, value, rule)) == Keys(t) + {key}
  {
    InsertEntries(t, key, value, rule);
    InsertEntrySorted(Entries(t), key, value);
    InsertEntryKeys(Entries(t), key, value);
    SizeIsLength(t);
    SizeIsLength(RecurInsert(t, key, value, rule));
  }

  /**
   * `search` is complete for a tree whose in-order keys never decrease: it
   * reports "not found" exactly when no node holds the key.
   */
  lemma {:induction false} SearchComplete<V>(t: Tree<V>, key: int)
    requires Sorted(Entries(t))
    ensures RecurSearch(t, key) == Nil <==> key !in Keys(t)
  {
    if t.Node? {
      SortedNode(t);
      if key > t.key {
        SearchComplete(t.right, key);
      } else if key < t.key {
        SearchComplete(t.left, key);
      }
    }
  }

  /** Deleting a key that no node holds changes no entry (only rebalancing happens). */
  lemma {:induction false} DeleteAbsent<V>(t: Tree<V>, key: int, rule: TieRule)
    requires HeightsOk(t) && key !in Keys(t)
    ensures Entries(RecurDelete(t, key, rule)) == Entries(t)
  {
    if t.Node? {
      KeysOfNode(t);
      assert key != t.key;
      if key < t.key {
        DeleteAbsent(t.left, key, rule);
        DeleteDescendLeft(t, key, rule);
      } else {
        DeleteAbsent(t.right, key, rule);
        DeleteDescendRight(t, key, rule);
      }
    }
  }

  /** Below a node with a larger key, delete works in the left subtree only. */
  lemma DeleteDescendLeft<V>(t: Tree<V>, key: int, rule: TieRule)
    requires HeightsOk(t) && t.Node? && key < t.key
    ensures Entries(RecurDelete(t, key, rule))
      == Entries(RecurDelete(t.left, key, rule)) + [Entry(t.key, t.value)] + Entries(t.right)
  {
    var n := t.(left := RecurDelete(t.left, key, rule));
    assert RecurDelete(t, key, rule) == RebalanceNode(n, rule);
    RebalanceKeepsEntries(n, rule);
  }

  /** Below a node with a smaller key, delete works in the right subtree only. */
  lemma DeleteDescendRight<V>(t: Tree<V>, key: int, rule: TieRule)
    requires HeightsOk(t) && t.Node? && key > t.key
    ensures Entries(RecurDelete(t, key, rule))
      == Entries(t.left) + [Entry(t.key, t.value)] + Entries(RecurDelete(t.right, key, rule))
  {
    var n := t.(right := RecurDelete(t.right, key, rule));
    assert RecurDelete(t, key, rule) == RebalanceNode(n, rule);
    RebalanceKeepsEntries(n, rule);
  }

  /**
   * With duplicates allowed, delete keeps the in-order keys non-decreasing,
   * introduces no key, and removes exactly one node when the key is present.
   */
  lemma DeleteSortedAndSize<V>(t: Tree<V>, key: int, rule: TieRule)
    requires HeightsOk(t) && Sorted(Entries(t))
    ensures Sorted(Entries(RecurDelete(t, key, rule)))
    ensures Keys(RecurDelete(t, key, rule)) <= Keys(t)
    ensures Size(RecurDelete(t, key, rule)) == Size(t) - (if key in Keys(t) then 1 else 0)
  {
    DeleteSortedAndLength(t, key, rule);
    SizeIsLength(t);
    SizeIsLength(RecurDelete(t, key, rule));
  }

  lemma {:induction false} DeleteSortedAndLength<V>(t: Tree<V>, key: int, rule: TieRule)
    requires HeightsOk(t) && Sorted(Entries(t))
    ensures Sorted(Entries(RecurDelete(t, key, rule)))
    ensures Keys(RecurDelete(t, key, rule)) <= Keys(t)
    ensures |Entries(RecurDelete(t, key, rule))| == |Entries(t)| - (if key in Keys(t) then 1 else 0)
  {
    if t.Node? {
      SortedNode(t);
      var l, r := t.left, t.right;
      if key < t.key {
        DeleteSortedAndLength(l, key, rule);
        DeleteSortedLeft(t, key, rule);
      } else if key > t.key {
        DeleteSortedAndLength(r, key, rule);
        DeleteSortedRight(t, key, rule);
      } else if l != Nil && r != Nil {
        DeleteSortedAndLength(r, FindSmallestDescendant(r).key, rule);
        DeleteSuccessorSorted(t, rule);
        KeysOfNode(t);
      } else {
        DeleteSplicedSorted(t, rule);
        KeysOfNode(t);
      }
    }
  }

  /** The splice case of DeleteSortedAndLength: the node's entry leaves, the rest stays in order. */
  lemma DeleteSplicedSorted<V>(t: Tree<V>, rule: TieRule)
    requires HeightsOk(t) && Sorted(Entries(t)) && t.Node? && (t.left == Nil || t.right == Nil)
    ensures Sorted(Entries(RecurDelete(t, t.key, rule)))
    ensures Keys(RecurDelete(t, t.key, rule)) <= Keys(t)
    ensures |Entries(RecurDelete(t, t.key, rule))| == |Entries(t)| - 1
  {
    SortedNode(t);
    SpliceEntries(t, rule);
    var l, r := Entries(t.left), Entries(t.right);
    if t.left == Nil {
      assert l + r == r;
    } else {
      assert l + r == l;
    }
    KeysOfAppend(l, r);
  }

  /** A node with at most one child is replaced by that child, whose entries are kept. */
  lemma SpliceEntries<V>(t: Tree<V>, rule: TieRule)
    requires HeightsOk(t) && t.Node? && (t.left == Nil || t.right == Nil)
    ensures Entries(RecurDelete(t, t.key, rule)) == Entries(t.left) + Entries(t.right)
  {
    var node := if t.left != Nil then t.left else t.right;
    assert HeightsOk(node);
    if node != Nil {
      RebalanceKeepsEntries(node, rule);
    }
  }

  /** The left-descent case of DeleteSortedAndLength, given its facts about the left subtree. */
  lemma DeleteSortedLeft<V>(t: Tree<V>, key: int, rule: TieRule)
    requires HeightsOk(t) && Sorted(Entries(t)) && t.Node? && key < t.key
    requires var l' := RecurDelete(t.left, key, rule);
      && Sorted(Entries(l')) && Keys(l') <= Keys(t.left)
      && |Entries(l')| == |Entries(t.left)| - (if key in Keys(t.left) then 1 else 0)
    ensures Sorted(Entries(RecurDelete(t, key, rule)))
    ensures Keys(RecurDelete(t, key, rule)) <= Keys(t)
    ensures |Entries(RecurDelete(t, key, rule))| == |Entries(t)| - (if key in Keys(t) then 1 else 0)
  {
    SortedNode(t);
    var e := Entry(t.key, t.value);
    var l' := RecurDelete(t.left, key, rule);
    DeleteDescendLeft(t, key, rule);
    EntriesWithin(l', t.key);
    SortedJoin(Entries(l'), e, Entries(t.right));
    KeysOfNode(t.(left := l'));
    assert key !in Keys(t.right);
  }

  /** The right-descent case of DeleteSortedAndLength, given its facts about the right subtree. */
  lemma DeleteSortedRight<V>(t: Tree<V>, key: int, rule: TieRule)
    requires HeightsOk(t) && Sorted(Entries(t)) && t.Node? && key > t.key
    requires var r' := RecurDelete(t.right, key, rule);
      && Sorted(Entries(r')) && Keys(r') <= Keys(t.right)
      && |Entries(r')| == |Entries(t.right)| - (if key in Keys(t.right) then 1 else 0)
    ensures Sorted(Entries(RecurDelete(t, key, rule)))
    ensures Keys(RecurDelete(t, key, rule)) <= Keys(t)
    ensures |Entries(RecurDelete(t, key, rule))| == |Entries(t)| - (if key in Keys(t) then 1 else 0)
  {
    SortedNode(t);
    var e := Entry(t.key, t.value);
    var r' := RecurDelete(t.right, key, rule);
    DeleteDescendRight(t, key, rule);
    EntriesAbove(r', t.key);
    SortedJoin(Entries(t.left), e, Entries(r'));
    KeysOfNode(t.(right := r'));
    assert key !in Keys(t.left);
  }

  /** The two-child case of DeleteSortedAndLength, given its facts about the right subtree. */
  lemma DeleteSuccessorSorted<V>(t: Tree<V>, rule: TieRule)
    requires HeightsOk(t) && Sorted(Entries(t)) && t.Node? && t.left != Nil && t.right != Nil
    requires var r' := RecurDelete(t.right, FindSmallestDescendant(t.right).key, rule);
      && Sorted(Entries(r')) && Keys(r') <= Keys(t.right)
      && |Entries(r')| == |Entries(t.right)| - (if FindSmallestDescendant(t.right).key in Keys(t.right) then 1 else 0)
    ensures Sorted(Entries(RecurDelete(t, t.key, rule)))
    ensures Keys(RecurDelete(t, t.key, rule)) <= Keys(t)
    ensures |Entries(RecurDelete(t, t.key, rule))| == |Entries(t)| - 1
  {
    SortedNode(t);
    var l, r := t.left, t.right;
    var s := FindSmallestDescendant(r);
    var r' := RecurDelete(r, s.key, rule);
    KeyInKeysOf(Entries(r), 0);
    assert Sorted(Entries(r));
    forall i | 0 <= i < |Entries(r)| ensures s.key <= Entries(r)[i].key {
      assert Entries(r)[0].key <= Entries(r)[i].key;
    }
    KeysOfAtLeast(Entries(r), s.key);
    SuccessorCopyEntries(t, rule);
    EntriesAbove(r', s.key);
    SortedJoin(Entries(l), Entry(s.key, s.value), Entries(r'));
    KeysOfNode(t.(key := s.key, value := s.value, right := r'));
  }

  lemma EntriesWithin<V>(t: Tree<V>, hi: int)
    requires forall x :: x in Keys(t) ==> x <= hi
    ensures forall i :: 0 <= i < |Entries(t)| ==> Entries(t)[i].key <= hi
  {
    forall i | 0 <= i < |Entries(t)| ensures Entries(t)[i].key <= hi {
      KeyInKeysOf(Entries(t), i);
      assert Entries(t)[i].key in Keys(t);
    }
  }

  lemma EntriesAbove<V>(t: Tree<V>, lo: int)
    requires forall x :: x in Keys(t) ==> lo <= x
    ensures forall i :: 0 <= i < |Entries(t)| ==> lo <= Entries(t)[i].key
  {
    forall i | 0 <= i < |Entries(t)| ensures lo <= Entries(t)[i].key {
      KeyInKeysOf(Entries(t), i);
      assert Entries(t)[i].key in Keys(t);
    }
  }

  /**
   * With distinct keys, delete removes exactly the entry with that key from
   * the in-order list: a two-child node takes its successor's entry, and the
   * successor is removed from the right subtree.
   */
  lemma {:induction false} DeleteEntries<V>(t: Tree<V>, key: int, rule: TieRule)
    requires HeightsOk(t) && StrictlySorted(Entries(t))
    ensures Entries(RecurDelete(t, key, rule)) == RemoveFirstKey(Entries(t), key)
  {
    if t.Node? {
      StrictlySortedNode(t);
      if key < t.key {
        DeleteEntries(t.left, key, rule);
        DeleteEntriesLeft(t, key, rule);
      } else if key > t.key {
        DeleteEntries(t.right, key, rule);
        DeleteEntriesRight(t, key, rule);
      } else if t.left != Nil && t.right != Nil {
        DeleteEntries(t.right, FindSmallestDescendant(t.right).key, rule);
        DeleteEntriesSuccessor(t, rule);
      } else {
        DeleteEntriesSplice(t, rule);
      }
    }
  }

  lemma DeleteEntriesLeft<V>(t: Tree<V>, key: int, rule: TieRule)
    requires HeightsOk(t) && StrictlySorted(Entries(t)) && t.Node? && key < t.key
    requires Entries(RecurDelete(t.left, key, rule)) == RemoveFirstKey(Entries(t.left), key)
    ensures Entries(RecurDelete(t, key, rule)) == RemoveFirstKey(Entries(t), key)
  {
    StrictlySortedNode(t);
    DeleteDescendLeft(t, key, rule);
    RemoveFirstKeyLeft(Entries(t.left), Entry(t.key, t.value), Entries(t.right), key);
  }

  lemma DeleteEntriesRight<V>(t: Tree<V>, key: int, rule: TieRule)
    requires HeightsOk(t) && StrictlySorted(Entries(t)) && t.Node? && key > t.key
    requires Entries(RecurDelete(t.right, key, rule)) == RemoveFirstKey(Entries(t.right), key)
    ensures Entries(RecurDelete(t, key, rule)) == RemoveFirstKey(Entries(t), key)
  {
    StrictlySortedNode(t);
    DeleteDescendRight(t, key, rule);
    RemoveFirstKeyRight(Entries(t.left), Entry(t.key, t.value), Entries(t.right), key);
  }

  lemma DeleteEntriesSuccessor<V>(t: Tree<V>, rule: TieRule)
    requires HeightsOk(t) && t.Node? && t.left != Nil && t.right != Nil
    requires t.key !in KeysOf(Entries(t.left))
    requires var k := FindSmallestDescendant(t.right).key;
      Entries(RecurDelete(t.right, k, rule)) == RemoveFirstKey(Entries(t.right), k)
    ensures Entries(RecurDelete(t, t.key, rule)) == RemoveFirstKey(Entries(t), t.key)
  {
    var l, r := Entries(t.left), Entries(t.right);
    SuccessorCopyEntries(t, rule);
    RemoveFirstKeyReplaced(l, Entry(t.key, t.value), r);
  }

  /** The two-child case copies the successor's entry in and deletes it from the right. */
  lemma SuccessorCopyEntries<V>(t: Tree<V>, rule: TieRule)
    requires HeightsOk(t) && t.Node? && t.left != Nil && t.right != Nil
    ensures var sd := FindSmallestDescendant(t.right);
      Entries(RecurDelete(t, t.key, rule))
        == Entries(t.left) + [Entry(sd.key, sd.value)] + Entries(RecurDelete(t.right, sd.key, rule))
  {
    var sd := FindSmallestDescendant(t.right);
    var copied := t.(key := sd.key, value := sd.value, right := RecurDelete(t.right, sd.key, rule));
    assert RecurDelete(t, t.key, rule) == RebalanceNode(copied, rule);
    RebalanceKeepsEntries(copied, rule);
  }

  lemma DeleteEntriesSplice<V>(t: Tree<V>, rule: TieRule)
    requires HeightsOk(t) && StrictlySorted(Entries(t)) && t.Node? && (t.left == Nil || t.right == Nil)
    ensures Entries(RecurDelete(t, t.key, rule)) == RemoveFirstKey(Entries(t), t.key)
  {
    StrictlySortedNode(t);
    RemoveFirstKeyAt(Entries(t.left), Entry(t.key, t.value), Entries(t.right));
    SpliceEntries(t, rule);
  }

  // ---------------------------------------------------------------------
  // The AVL balance invariant

  /** With the balance factor already in [-1, 1], rebalancing only recomputes the height. */
  lemma RebalanceWithinBound<V>(n: Tree<V>, rule: TieRule)
    requires n.Node? && Balanced(n.left) && Balanced(n.right)
    requires -1 <= GetNodeHeight(n.right) - GetNodeHeight(n.left) <= 1
    ensures RebalanceNode(n, rule) == UpdateNodeHeight(n)
    ensures Balanced(RebalanceNode(n, rule))
    ensures GetNodeHeight(RebalanceNode(n, rule)) == 1 + Max(GetNodeHeight(n.left), GetNodeHeight(n.right))
  {
  }

  /** Rebalancing a node that already satisfies the AVL invariant returns it unchanged. */
  lemma RebalanceBalanced<V>(n: Tree<V>, rule: TieRule)
    requires n.Node? && Balanced(n)
    ensures RebalanceNode(n, rule) == n
  {
    RebalanceWithinBound(n, rule);
  }

  /**
   * Left-heavy by two with balanced children: the rotations restore the
   * bound, provided the double rotation is not taken on a balanced left child.
   */
  lemma RebalanceLeftHeavy<V>(n: Tree<V>, rule: TieRule)
    requires n.Node? && Balanced(n.left) && Balanced(n.right)
    requires GetNodeHeight(n.left) == GetNodeHeight(n.right) + 2
    requires rule == DoubleOnTie ==> GetNodeBalance(n.left) != 0
    ensures Balanced(RebalanceNode(n, rule))
    ensures GetNodeHeight(n.left) <= GetNodeHeight(RebalanceNode(n, rule)) <= GetNodeHeight(n.left) + 1
    ensures GetNodeBalance(n.left) != 0 ==> GetNodeHeight(RebalanceNode(n, rule)) == GetNodeHeight(n.left)
  {
    if RotateLeftChildFirst(n.left, rule) {
      RebalanceLeftHeavyDouble(n, rule);
    } else {
      RebalanceLeftHeavySingle(n, rule);
    }
  }

  /** The double-rotation case of RebalanceLeftHeavy. */
  lemma RebalanceLeftHeavyDouble<V>(n: Tree<V>, rule: TieRule)
    requires n.Node? && Balanced(n.left) && Balanced(n.right)
    requires GetNodeHeight(n.left) == GetNodeHeight(n.right) + 2
    requires rule == DoubleOnTie ==> GetNodeBalance(n.left) != 0
    requires n.left.Node? && RotateLeftChildFirst(n.left, rule)
    ensures Balanced(RebalanceNode(n, rule))
    ensures GetNodeHeight(n.left) <= GetNodeHeight(RebalanceNode(n, rule)) <= GetNodeHeight(n.left) + 1
    ensures GetNodeBalance(n.left) != 0 ==> GetNodeHeight(RebalanceNode(n, rule)) == GetNodeHeight(n.left)
  {
    var h := GetNodeHeight(n.right);
    var l := n.left;
    var ll, lr := l.left, l.right;
    var res := RebalanceNode(n, rule);
    assert GetNodeHeight(ll) == h;
    var lrl, lrr := lr.left, lr.right;
    assert Balanced(lr) && GetNodeHeight(lr) == h + 1;
    assert Balanced(lrl) && Balanced(lrr) && Balanced(ll);
    assert h - 1 <= GetNodeHeight(lrl) <= h && h - 1 <= GetNodeHeight(lrr) <= h;
    var a := Node(l.key, l.value, h + 1, ll, lrl);
    var b := Node(n.key, n.value, h + 1, lrr, n.right);
    assert res == Node(lr.key, lr.value, h + 2, a, b);
    assert Balanced(a) && Balanced(b);
  }

  /** The single-rotation case of RebalanceLeftHeavy. */
  lemma RebalanceLeftHeavySingle<V>(n: Tree<V>, rule: TieRule)
    requires n.Node? && Balanced(n.left) && Balanced(n.right)
    requires GetNodeHeight(n.left) == GetNodeHeight(n.right) + 2
    requires rule == DoubleOnTie ==> GetNodeBalance(n.left) != 0
    requires n.left.Node? && !RotateLeftChildFirst(n.left, rule)
    ensures Balanced(RebalanceNode(n, rule))
    ensures GetNodeHeight(n.left) <= GetNodeHeight(RebalanceNode(n, rule)) <= GetNodeHeight(n.left) + 1
    ensures GetNodeBalance(n.left) != 0 ==> GetNodeHeight(RebalanceNode(n, rule)) == GetNodeHeight(n.left)
  {
    var h := GetNodeHeight(n.right);
    var l := n.left;
    var ll, lr := l.left, l.right;
    var res := RebalanceNode(n, rule);
    var b := Node(n.key, n.value, 1 + Max(GetNodeHeight(lr), h), lr, n.right);
    assert Balanced(b);
    assert res == Node(l.key, l.value, 1 + Max(GetNodeHeight(ll), GetNodeHeight(b)), ll, b);
  }

  /** The mirror image of RebalanceLeftHeavy. */
  lemma RebalanceRightHeavy<V>(n: Tree<V>, rule: TieRule)
    requires n.Node? && Balanced(n.left) && Balanced(n.right)
    requires GetNodeHeight(n.right) == GetNodeHeight(n.left) + 2
    requires rule == DoubleOnTie ==> GetNodeBalance(n.right) != 0
    ensures Balanced(RebalanceNode(n, rule))
    ensures GetNodeHeight(n.right) <= GetNodeHeight(RebalanceNode(n, rule)) <= GetNodeHeight(n.right) + 1
    ensures GetNodeBalance(n.right) != 0 ==> GetNodeHeight(RebalanceNode(n, rule)) == GetNodeHeight(n.right)
  {
    if RotateRightChildFirst(n.right, rule) {
      RebalanceRightHeavyDouble(n, rule);
    } else {
      RebalanceRightHeavySingle(n, rule);
    }
  }

  /** The double-rotation case of RebalanceRightHeavy. */
  lemma RebalanceRightHeavyDouble<V>(n: Tree<V>, rule: TieRule)
    requires n.Node? && Balanced(n.left) && Balanced(n.right)
    requires GetNodeHeight(n.right) == GetNodeHeight(n.left) + 2
    requires rule == DoubleOnTie ==> GetNodeBalance(n.right) != 0
    requires n.right.Node? && RotateRightChildFirst(n.right, rule)
    ensures Balanced(RebalanceNode(n, rule))
    ensures GetNodeHeight(n.right) <= GetNodeHeight(RebalanceNode(n, rule)) <= GetNodeHeight(n.right) + 1
    ensures GetNodeBalance(n.right) != 0 ==> GetNodeHeight(RebalanceNode(n, rule)) == GetNodeHeight(n.right)
  {
    var h := GetNodeHeight(n.left);
    var r := n.right;
    var rl, rr := r.left, r.right;
    var res := RebalanceNode(n, rule);
    assert GetNodeHeight(rr) == h;
    var rll, rlr := rl.left, rl.right;
    assert Balanced(rl) && GetNodeHeight(rl) == h + 1;
    assert Balanced(rll) && Balanced(rlr) && Balanced(rr);
    assert h - 1 <= GetNodeHeight(rll) <= h && h - 1 <= GetNodeHeight(rlr) <= h;
    var a := Node(n.key, n.value, h + 1, n.left, rll);
    var b := Node(r.key, r.value, h + 1, rlr, rr);
    assert res == Node(rl.key, rl.value, h + 2, a, b);
    assert Balanced(a) && Balanced(b);
  }

  /** The single-rotation case of RebalanceRightHeavy. */
  lemma RebalanceRightHeavySingle<V>(n: Tree<V>, rule: TieRule)
    requires n.Node? && Balanced(n.left) && Balanced(n.right)
    requires GetNodeHeight(n.right) == GetNodeHeight(n.left) + 2
    requires rule == DoubleOnTie ==> GetNodeBalance(n.right) != 0
    requires n.right.Node? && !RotateRightChildFirst(n.right, rule)
    ensures Balanced(RebalanceNode(n, rule))
    ensures GetNodeHeight(n.right) <= GetNodeHeight(RebalanceNode(n, rule)) <= GetNodeHeight(n.right) + 1
    ensures GetNodeBalance(n.right) != 0 ==> GetNodeHeight(RebalanceNode(n, rule)) == GetNodeHeight(n.right)
  {
    var h := GetNodeHeight(n.left);
    var r := n.right;
    var rl, rr := r.left, r.right;
    var res := RebalanceNode(n, rule);
    var a := Node(n.key, n.value, 1 + Max(h, GetNodeHeight(rl)), n.left, rl);
    assert Balanced(a);
    assert res == Node(r.key, r.value, 1 + Max(GetNodeHeight(a), GetNodeHeight(rr)), a, rr);
  }

  /** One rebalancing step after an insertion grew the right subtree by at most one level. */
  lemma InsertStepRight<V>(t: Tree<V>, grown: Tree<V>, rule: TieRule)
    requires t.Node? && Balanced(t) && Balanced(grown)
    requires GetNodeHeight(t.right) <= GetNodeHeight(grown) <= GetNodeHeight(t.right) + 1
    requires t.right.Node? && GetNodeHeight(grown) == GetNodeHeight(t.right) + 1 ==> GetNodeBalance(grown) != 0
    ensures var r := RebalanceNode(t.(right := grown), rule);
      Balanced(r) && GetNodeHeight(t) <= GetNodeHeight(r) <= GetNodeHeight(t) + 1 &&
      (GetNodeHeight(r) == GetNodeHeight(t) + 1 ==> GetNodeBalance(r) != 0)
  {
    var n := t.(right := grown);
    if GetNodeHeight(grown) - GetNodeHeight(t.left) <= 1 {
      RebalanceWithinBound(n, rule);
    } else {
      RebalanceRightHeavy(n, rule);
    }
  }

  /** The mirror image of InsertStepRight. */
  lemma InsertStepLeft<V>(t: Tree<V>, grown: Tree<V>, rule: TieRule)
    requires t.Node? && Balanced(t) && Balanced(grown)
    requires GetNodeHeight(t.left) <= GetNodeHeight(grown) <= GetNodeHeight(t.left) + 1
    requires t.left.Node? && GetNodeHeight(grown) == GetNodeHeight(t.left) + 1 ==> GetNodeBalance(grown) != 0
    ensures var r := RebalanceNode(t.(left := grown), rule);
      Balanced(r) && GetNodeHeight(t) <= GetNodeHeight(r) <= GetNodeHeight(t) + 1 &&
      (GetNodeHeight(r) == GetNodeHeight(t) + 1 ==> GetNodeBalance(r) != 0)
  {
    var n := t.(left := grown);
    if GetNodeHeight(grown) - GetNodeHeight(t.right) <= 1 {
      RebalanceWithinBound(n, rule);
    } else {
      RebalanceLeftHeavy(n, rule);
    }
  }

  /**
   * Insertion keeps an AVL tree balanced, under either tie rule, and grows
   * its height by at most one; a subtree that grew is not itself level.
   */
  lemma {:induction false} InsertKeepsBalanced<V>(t: Tree<V>, key: int, value: V, rule: TieRule)
    requires Balanced(t)
    ensures var r := RecurInsert(t, key, value, rule);
      Balanced(r) && GetNodeHeight(t) <= GetNodeHeight(r) <= GetNodeHeight(t) + 1 &&
      (t.Node? && GetNodeHeight(r) == GetNodeHeight(t) + 1 ==> GetNodeBalance(r) != 0)
  {
    if t.Node? {
      if key >= t.key {
        InsertKeepsBalanced(t.right, key, value, rule);
        InsertStepRight(t, RecurInsert(t.right, key, value, rule), rule);
      } else {
        InsertKeepsBalanced(t.left, key, value, rule);
        InsertStepLeft(t, RecurInsert(t.left, key, value, rule), rule);
      }
    }
  }

  /** One rebalancing step after a deletion shrank the left subtree by at most one level. */
  lemma DeleteStepLeft<V>(t: Tree<V>, shrunk: Tree<V>)
    requires t.Node? && Balanced(t) && Balanced(shrunk)
    requires GetNodeHeight(t.left) - 1 <= GetNodeHeight(shrunk) <= GetNodeHeight(t.left)
    ensures var r := RebalanceNode(t.(left := shrunk), SingleOnTie);
      Balanced(r) && GetNodeHeight(t) - 1 <= GetNodeHeight(r) <= GetNodeHeight(t)
  {
    var n := t.(left := shrunk);
    if GetNodeHeight(t.right) - GetNodeHeight(shrunk) <= 1 {
      RebalanceWithinBound(n, SingleOnTie);
    } else {
      RebalanceRightHeavy(n, SingleOnTie);
    }
  }

  /** The mirror image of DeleteStepLeft. */
  lemma DeleteStepRight<V>(t: Tree<V>, shrunk: Tree<V>)
    requires t.Node? && Balanced(t) && Balanced(shrunk)
    requires GetNodeHeight(t.right) - 1 <= GetNodeHeight(shrunk) <= GetNodeHeight(t.right)
    ensures var r := RebalanceNode(t.(right := shrunk), SingleOnTie);
      Balanced(r) && GetNodeHeight(t) - 1 <= GetNodeHeight(r) <= GetNodeHeight(t)
  {
    var n := t.(right := shrunk);
    if GetNodeHeight(t.left) - GetNodeHeight(shrunk) <= 1 {
      RebalanceWithinBound(n, SingleOnTie);
    } else {
      RebalanceLeftHeavy(n, SingleOnTie);
    }
  }

  /**
   * With the single rotation on a level child, deletion keeps an AVL tree
   * balanced and lowers its height by at most one.
   */
  lemma {:induction false} DeleteKeepsBalance<V>(t: Tree<V>, key: int)
    requires Balanced(t)
    ensures var r := RecurDelete(t, key, SingleOnTie);
      Balanced(r) && GetNodeHeight(t) - 1 <= GetNodeHeight(r) <= GetNodeHeight(t)
  {
    if t.Node? {
      if key < t.key {
        DeleteKeepsBalance(t.left, key);
        DeleteStepLeft(t, RecurDelete(t.left, key, SingleOnTie));
      } else if key > t.key {
        DeleteKeepsBalance(t.right, key);
        DeleteStepRight(t, RecurDelete(t.right, key, SingleOnTie));
      } else if t.left != Nil && t.right != Nil {
        var s := FindSmallestDescendant(t.right);
        DeleteKeepsBalance(t.right, s.key);
        DeleteStepRight(t.(key := s.key, value := s.value), RecurDelete(t.right, s.key, SingleOnTie));
      } else {
        var node := if t.left != Nil then t.left else t.right;
        if node != Nil {
          RebalanceBalanced(node, SingleOnTie);
        }
      }
    }
  }

  /** A balanced chain of two nodes, the upper one with an empty left subtree. */
  lemma RightChainBalanced<V>(k: int, v: V, b: Tree<V>)
    requires Balanced(b) && GetNodeHeight(b) == 0
    ensures Balanced(Node(k, v, 1, Nil, b))
  {
    assert HeightsOk(b) && BalanceFactorsOk(b);
  }

  /**
   * The double rotation taken when the heavy child is level breaks the AVL
   * invariant on deletion. Take a balanced tree whose root's left child is
   * level, with its right subtree a one-child chain, and whose right subtree
   * is a node with one right leaf. Deleting that leaf makes the root
   * left-heavy by two; the double rotation then leaves the old left child with
   * balance factor -2, while the single rotation leaves the tree balanced.
   * With keys 2, 3, 5, 7, 8, 10, 12, 13 this is the tree built by inserting
   * 10, 5, 12, 3, 7, 13, 2, 8, and the key deleted is 13.
   */
  lemma DeleteCanBreakBalance<V>(t: Tree<V>, a: Tree<V>, b: Tree<V>, key: int)
    requires Balanced(a) && GetNodeHeight(a) == 1 && Balanced(b) && GetNodeHeight(b) == 0
    requires t.Node? && t.height == 3 && t.right.Node? && t.right.height == 1 && t.right.left == Nil
    requires t.right.right.Node? && t.right.right == Node(key, t.right.right.value, 0, Nil, Nil)
    requires t.key < t.right.key < key
    requires t.left.Node? && t.left.height == 2 && t.left.left == a
    requires t.left.right.Node? && t.left.right.height == 1 && t.left.right.left == Nil && t.left.right.right == b
    ensures Balanced(t)
    ensures !Balanced(RecurDelete(t, key, DoubleOnTie))
    ensures Balanced(RecurDelete(t, key, SingleOnTie))
  {
    var l, r := t.left, t.right;
    RightChainBalanced(l.right.key, l.right.value, b);
    assert HeightsOk(a) && BalanceFactorsOk(a);
    assert Balanced(l);
    RightChainBalanced(r.key, r.value, r.right);
    assert Balanced(t);
    // the deletion empties the leaf and leaves its parent a leaf
    var leaf := Node(r.key, r.value, 0, Nil, Nil);
    assert RecurDelete(r.right, key, DoubleOnTie) == Nil;
    assert RecurDelete(r.right, key, SingleOnTie) == Nil;
    assert RecurDelete(r, key, DoubleOnTie) == leaf;
    assert RecurDelete(r, key, SingleOnTie) == leaf;
    var n := t.(right := leaf);
    assert UpdateNodeHeight(n) == n;
    // double rotation
    assert RotateLeftChildFirst(l, DoubleOnTie);
    var broken := RebalanceNode(n, DoubleOnTie);
    assert broken.left == LeftRotate(l).left == Node(l.key, l.value, 2, a, Nil);
    assert !BalanceFactorsOk(broken.left);
    // single rotation
    assert !RotateLeftChildFirst(l, SingleOnTie);
    RebalanceLeftHeavy(n, SingleOnTie);
  }

  /** When the heavy child is not level, the two tie rules rebalance a node identically. */
  lemma RebalanceRuleIrrelevant<V>(n: Tree<V>)
    requires n.Node? && HeightsOk(n.left) && HeightsOk(n.right)
    requires GetNodeHeight(n.left) - GetNodeHeight(n.right) >= 2 ==> GetNodeBalance(n.left) != 0
    requires GetNodeHeight(n.right) - GetNodeHeight(n.left) >= 2 ==> GetNodeBalance(n.right) != 0
    ensures RebalanceNode(n, DoubleOnTie) == RebalanceNode(n, SingleOnTie)
  {
  }

  /**
   * On a balanced tree, insertion never meets a level heavy child, so the
   * tie rule at the rotation tests makes no difference to insert.
   */
  lemma {:induction false} InsertRuleIrrelevant<V>(t: Tree<V>, key: int, value: V)
    requires Balanced(t)
    ensures RecurInsert(t, key, value, DoubleOnTie) == RecurInsert(t, key, value, SingleOnTie)
  {
    if t.Node? {
      if key >= t.key {
        InsertRuleIrrelevant(t.right, key, value);
        InsertKeepsBalanced(t.right, key, value, DoubleOnTie);
        RebalanceRuleIrrelevant(t.(right := RecurInsert(t.right, key, value, DoubleOnTie)));
      } else {
        InsertRuleIrrelevant(t.left, key, value);
        InsertKeepsBalanced(t.left, key, value, DoubleOnTie);
        RebalanceRuleIrrelevant(t.(left := RecurInsert(t.left, key, value, DoubleOnTie)));
      }
    }
  }

  /**
   * The ordering claimed in the class comment: every key in a left subtree is
   * strictly smaller than the node's key, every key in a right subtree at least it.
   */
  ghost predicate StrictLeftOrdered<V>(t: Tree<V>)
  {
    match t
    case Nil => true
    case Node(k, _, _, l, r) =>
      StrictLeftOrdered(l) && StrictLeftOrdered(r) &&
      (forall x :: x in Keys(l) ==> x < k) && (forall x :: x in Keys(r) ==> k <= x)
  }

  /**
   * With equal keys the rotations move an equal key into a left subtree:
   * inserting one key three times yields a root whose left child has the
   * same key. Only the non-decreasing in-order order survives.
   */
  lemma EqualKeysBreakStrictLeft<V>(k: int, v1: V, v2: V, v3: V, rule: TieRule)
    ensures var t := RecurInsert(RecurInsert(RecurInsert(Nil, k, v1, rule), k, v2, rule), k, v3, rule);
      Sorted(Entries(t)) && !StrictLeftOrdered(t)
  {
    var leaf1, leaf3 := Node(k, v1, 0, Nil, Nil), Node(k, v3, 0, Nil, Nil);
    assert RecurInsert(Nil, k, v1, rule) == leaf1;
    InsertEqualIntoChain(k, v1, v2, v3, rule);
    EqualKeysTree(k, v1, v2, v3);
  }

  /** Three equal keys, one at the root and one in each child. */
  lemma EqualKeysTree<V>(k: int, v1: V, v2: V, v3: V)
    ensures var t := Node(k, v2, 1, Node(k, v1, 0, Nil, Nil), Node(k, v3, 0, Nil, Nil));
      Sorted(Entries(t)) && !StrictLeftOrdered(t)
  {
    var leaf1, leaf3 := Node(k, v1, 0, Nil, Nil), Node(k, v3, 0, Nil, Nil);
    var t := Node(k, v2, 1, leaf1, leaf3);
    assert Entries(leaf1) == [Entry(k, v1)];
    KeyInKeysOf(Entries(leaf1), 0);
    assert Entries(t) == [Entry(k, v1)] + [Entry(k, v2)] + [Entry(k, v3)];
    assert k in Keys(t.left) && !(k < t.key);
  }

  /** A key equal to a leaf's goes to its right. */
  lemma InsertEqualIntoLeaf<V>(k: int, v: V, w: V, rule: TieRule)
    ensures RecurInsert(Node(k, v, 0, Nil, Nil), k, w, rule) == Node(k, v, 1, Nil, Node(k, w, 0, Nil, Nil))
  {
    var leaf, right := Node(k, v, 0, Nil, Nil), Node(k, w, 0, Nil, Nil);
    assert RecurInsert(Nil, k, w, rule) == right;
    assert RecurInsert(leaf, k, w, rule) == RebalanceNode(leaf.(right := right), rule);
    RebalanceWithinBound(leaf.(right := right), rule);
  }

  /** A third equal key makes a right chain, which one left rotation turns into a perfect tree. */
  lemma InsertEqualIntoChain<V>(k: int, v1: V, v2: V, v3: V, rule: TieRule)
    ensures var leaf1, leaf3 := Node(k, v1, 0, Nil, Nil), Node(k, v3, 0, Nil, Nil);
      RecurInsert(RecurInsert(leaf1, k, v2, rule), k, v3, rule) == Node(k, v2, 1, leaf1, leaf3)
  {
    InsertEqualIntoLeaf(k, v1, v2, rule);
    var t2 := Node(k, v1, 1, Nil, Node(k, v2, 0, Nil, Nil));
    InsertEqualIntoLeaf(k, v2, v3, rule);
    var grown := Node(k, v2, 1, Nil, Node(k, v3, 0, Nil, Nil));
    assert RecurInsert(t2, k, v3, rule) == RebalanceNode(t2.(right := grown), rule);
    var up := UpdateNodeHeight(t2.(right := grown));
    assert up == Node(k, v1, 2, Nil, grown);
    assert !RotateRightChildFirst(grown, rule);
    assert RebalanceNode(t2.(right := grown), rule) == LeftRotate(up);
  }

  // ---------------------------------------------------------------------
  // The tree object (AVLTree.java:33-40, 166-168, 198-209, 271-317)

  /**
   * `AVLTree`: the only mutable state is `root`. Insert and delete rebalance
   * with the rotation tests as written (DoubleOnTie). Insert keeps a balanced
   * tree balanced; delete may not (DeleteCanBreakBalance).
   */
  class AVLTree<V> {
    var root: Tree<V>

    /** Heights cached correctly and keys in order; balance is kept by insert only (see Delete). */
    ghost predicate Valid()
      reads this
    {
      HeightsOk(root) && Sorted(Entries(root))
    }

    constructor()
      ensures Valid() && Balanced(root) && root == Nil
    {
      root := Nil;
    }

    method Insert(key: int, value: V)
      requires Valid()
      modifies this
      ensures Valid()
      ensures root == RecurInsert(old(root), key, value, DoubleOnTie)
      ensures old(Balanced(root)) ==> Balanced(root)
      ensures Entries(root) == InsertEntry(old(Entries(root)), key, value)
      ensures Keys(root) == old(Keys(root)) + {key} && Size(root) == old(Size(root)) + 1
    {
      if Balanced(root) {
        InsertKeepsBalanced(root, key, value, DoubleOnTie);
      }
      InsertSortedAndSize(root, key, value, DoubleOnTie);
      InsertEntries(root, key, value, DoubleOnTie);
      root := RecurInsert(root, key, value, DoubleOnTie);
    }

    /** `search`: the value of the first node met with this key, or None (`null`). */
    function Search(key: int): (r: Option<V>)
      requires Valid()
      reads this
      ensures r.Some? ==> Entry(key, r.value) in Entries(root)
      ensures r.None? <==> key !in Keys(root)
    {
      SearchComplete(root, key);
      var node := RecurSearch(root, key);
      if node == Nil then None else Some(node.value)
    }

    /**
     * `delete`, with the rotation tests as written. Balance is not promised:
     * DeleteCanBreakBalance shows a balanced tree that this delete leaves unbalanced.
     */
    method Delete(key: int)
      requires Valid()
      modifies this
      ensures Valid()
      ensures root == RecurDelete(old(root), key, DoubleOnTie)
      ensures Keys(root) <= old(Keys(root))
      ensures Size(root) == old(Size(root)) - (if key in old(Keys(root)) then 1 else 0)
      ensures key !in old(Keys(root)) ==> Entries(root) == old(Entries(root))
      ensures StrictlySorted(old(Entries(root))) ==> Entries(root) == RemoveFirstKey(old(Entries(root)), key)
    {
      DeleteSortedAndSize(root, key, DoubleOnTie);
      if key !in Keys(root) {
        DeleteAbsent(root, key, DoubleOnTie);
      }
      if StrictlySorted(Entries(root)) {
        DeleteEntries(root, key, DoubleOnTie);
      }
      root := RecurDelete(root, key, DoubleOnTie);
    }

    /** `recurInorder`: appends the values of a non-empty subtree, in order, to `list`. */
    method RecurInorder(t: Tree<V>, list: seq<V>) returns (out: seq<V>)
      requires t.Node?
      ensures out == list + ValuesOf(Entries(t))
      decreases t
    {
      out := list;
      if t.left != Nil {
        out := RecurInorder(t.left, out);
      }
      out := out + [t.value];
      if t.right != Nil {
        out := RecurInorder(t.right, out);
      }
      ValuesOfAppend(Entries(t.left) + [Entry(t.key, t.value)], Entries(t.right));
      ValuesOfAppend(Entries(t.left), [Entry(t.key, t.value)]);
    }

    /** `inorderRec`: the values in in-order, hence in non-decreasing key order. */
    method InorderRec() returns (list: seq<V>)
      ensures list == ValuesOf(Entries(root))
      ensures |list| == Size(root)
    {
      list := [];
      if root != Nil {
        list := RecurInorder(root, list);
      }
      SizeIsLength(root);
    }

    /** `kthSmallest`: the value at in-order position k (1-based); out of range is the Java exception. */
    method KthSmallest(k: int) returns (r: Result<V>)
      ensures r.Ok? <==> 1 <= k <= Size(root)
      ensures r.Ok? ==> k <= |Entries(root)| && r.value == Entries(root)[k - 1].value
    {
      var list := InorderRec();
      r := Get(list, k - 1);
      if r.Ok? {
        SizeIsLength(root);
        ValuesOfIndex(Entries(root), k - 1);
      }
    }
  }
}
