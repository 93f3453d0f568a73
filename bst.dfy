/**
 * The unbalanced binary search tree of BinarySearchTree.java.
 *
 * The Java class walks the tree with a `pointer` and a `parent` reference and
 * then overwrites a field of `parent` (or `root`). Here the tree is a value held
 * in the object's one field, `root`; a reference to a node is the path of
 * left/right steps from the root to it, and a write through a reference
 * rebuilds `root` with the subtree at that path replaced.
 */
module BST {
  import opened OrderedEntries

  /** `Node`: key, value and the two owned children (Nil is `null`). */
  datatype Tree<V> = Nil | Node(key: int, value: V, left: Tree<V>, right: Tree<V>)

  /** One step down a reference chain: `.left` (L) or `.right` (R). */
  datatype Dir = L | R

  // ---------------------------------------------------------------------
  // Abstract views of a subtree

  /** The (key, value) pairs in in-order position. */
  function Entries<V>(t: Tree<V>): seq<Entry<V>>
  {
    match t
    case Nil => []
    case Node(k, v, l, r) => Entries(l) + [Entry(k, v)] + Entries(r)
  }

  function Keys<V>(t: Tree<V>): set<int>
  {
    KeysOf(Entries(t))
  }

  /** The number of nodes. */
  function Size<V>(t: Tree<V>): nat
  {
    match t
    case Nil => 0
    case Node(_, _, l, r) => Size(l) + 1 + Size(r)
  }

  /**
   * The class invariant stated at BinarySearchTree.java:2: every key in a
   * node's left subtree is smaller than the node's key, every key in its
   * right subtree is larger or equal.
   */
  ghost predicate Ordered<V>(t: Tree<V>)
  {
    match t
    case Nil => true
    case Node(k, _, l, r) =>
      Ordered(l) && Ordered(r) &&
      (forall x :: x in KeysOf(Entries(l)) ==> x < k) &&
      (forall x :: x in KeysOf(Entries(r)) ==> k <= x)
  }

  // ---------------------------------------------------------------------
  // References as paths

  function Child<V>(t: Tree<V>, d: Dir): Tree<V>
    requires t.Node?
  {
    if d == L then t.left else t.right
  }

  /** The path can be followed from `t`: every step but the end is at a node. */
  function ValidPath<V>(t: Tree<V>, p: seq<Dir>): bool
  {
    p == [] || (t.Node? && ValidPath(Child(t, p[0]), p[1..]))
  }

  /** The subtree a reference (path) points at; Nil for a null reference. */
  function At<V>(t: Tree<V>, p: seq<Dir>): Tree<V>
    requires ValidPath(t, p)
  {
    if p == [] then t else At(Child(t, p[0]), p[1..])
  }

  /** The tree after the field that holds the subtree at `p` is overwritten with `s`. */
  function ReplaceAt<V>(t: Tree<V>, p: seq<Dir>, s: Tree<V>): Tree<V>
    requires ValidPath(t, p)
  {
    if p == [] then s
    else if p[0] == L then t.(left := ReplaceAt(t.left, p[1..], s))
    else t.(right := ReplaceAt(t.right, p[1..], s))
  }

  /** The entries in-order before the slot at `p`. */
  function Before<V>(t: Tree<V>, p: seq<Dir>): seq<Entry<V>>
    requires ValidPath(t, p)
  {
    if p == [] then []
    else if p[0] == L then Before(t.left, p[1..])
    else Entries(t.left) + [Entry(t.key, t.value)] + Before(t.right, p[1..])
  }

  /** The entries in-order after the slot at `p`. */
  function After<V>(t: Tree<V>, p: seq<Dir>): seq<Entry<V>>
    requires ValidPath(t, p)
  {
    if p == [] then []
    else if p[0] == L then After(t.left, p[1..]) + [Entry(t.key, t.value)] + Entries(t.right)
    else After(t.right, p[1..])
  }

  // ---------------------------------------------------------------------
  // Path lemmas

  /** Following `p` then `q` is following `p + q`. */
  lemma {:induction false} AtAppend<V>(t: Tree<V>, p: seq<Dir>, q: seq<Dir>)
    requires ValidPath(t, p)
    ensures ValidPath(t, p + q) <==> ValidPath(At(t, p), q)
    ensures ValidPath(t, p + q) ==> At(t, p + q) == At(At(t, p), q)
  {
    if p != [] {
      assert (p + q)[0] == p[0] && (p + q)[1..] == p[1..] + q;
      AtAppend(Child(t, p[0]), p[1..], q);
    } else {
      assert p + q == q;
    }
  }

  /** A prefix of a valid path is valid, and the rest is valid from where it leads. */
  lemma {:induction false} ValidPrefix<V>(t: Tree<V>, p: seq<Dir>, q: seq<Dir>)
    requires ValidPath(t, p + q)
    ensures ValidPath(t, p) && ValidPath(At(t, p), q) && At(t, p + q) == At(At(t, p), q)
  {
    if p != [] {
      assert (p + q)[0] == p[0] && (p + q)[1..] == p[1..] + q;
      ValidPrefix(Child(t, p[0]), p[1..], q);
    } else {
      assert p + q == q;
    }
  }

  /** One more step from a node: the path stays valid and reaches its child. */
  lemma Step<V>(t: Tree<V>, p: seq<Dir>, d: Dir)
    requires ValidPath(t, p) && At(t, p).Node?
    ensures ValidPath(t, p + [d]) && At(t, p + [d]) == Child(At(t, p), d)
  {
    AtAppend(t, p, [d]);
    assert ValidPath(At(t, p), [d]) by {
      assert [d][1..] == [];
    }
  }

  /** Overwriting at `p + q` overwrites, inside the subtree at `p`, at `q`. */
  lemma {:induction false} ReplaceAtAppend<V>(t: Tree<V>, p: seq<Dir>, q: seq<Dir>, x: Tree<V>)
    requires ValidPath(t, p + q)
    ensures ValidPath(t, p) && ValidPath(At(t, p), q)
    ensures ReplaceAt(t, p + q, x) == ReplaceAt(t, p, ReplaceAt(At(t, p), q, x))
  {
    if p != [] {
      assert (p + q)[0] == p[0] && (p + q)[1..] == p[1..] + q;
      ReplaceAtAppend(Child(t, p[0]), p[1..], q, x);
    } else {
      assert p + q == q;
    }
  }

  /** After overwriting at `p`, the path still leads to the new subtree. */
  lemma {:induction false} AtReplaceAt<V>(t: Tree<V>, p: seq<Dir>, s: Tree<V>)
    requires ValidPath(t, p)
    ensures ValidPath(ReplaceAt(t, p, s), p) && At(ReplaceAt(t, p, s), p) == s
  {
    if p != [] {
      AtReplaceAt(Child(t, p[0]), p[1..], s);
    }
  }

  /** A second overwrite of the same slot supersedes the first. */
  lemma {:induction false} ReplaceAtTwice<V>(t: Tree<V>, p: seq<Dir>, s: Tree<V>, x: Tree<V>)
    requires ValidPath(t, p)
    ensures ValidPath(ReplaceAt(t, p, s), p)
    ensures ReplaceAt(ReplaceAt(t, p, s), p, x) == ReplaceAt(t, p, x)
  {
    AtReplaceAt(t, p, s);
    if p != [] {
      ReplaceAtTwice(Child(t, p[0]), p[1..], s, x);
    }
  }

  /** Overwriting a slot with its own content changes nothing. */
  lemma {:induction false} ReplaceAtSame<V>(t: Tree<V>, p: seq<Dir>)
    requires ValidPath(t, p)
    ensures ReplaceAt(t, p, At(t, p)) == t
  {
    if p != [] {
      ReplaceAtSame(Child(t, p[0]), p[1..]);
    }
  }

  /** Overwriting a slot splices the new subtree's entries between the slot's neighbours. */
  lemma {:induction false} ReplaceAtEntries<V>(t: Tree<V>, p: seq<Dir>, s: Tree<V>)
    requires ValidPath(t, p)
    ensures Entries(ReplaceAt(t, p, s)) == Before(t, p) + Entries(s) + After(t, p)
  {
    if p != [] {
      var c, q := Child(t, p[0]), p[1..];
      var n := [Entry(t.key, t.value)];
      ReplaceAtEntries(c, q, s);
      if p[0] == L {
        calc {
          Entries(ReplaceAt(t, p, s));
          Entries(ReplaceAt(c, q, s)) + n + Entries(t.right);
          Before(c, q) + Entries(s) + After(c, q) + n + Entries(t.right);
          Before(c, q) + Entries(s) + (After(c, q) + n + Entries(t.right));
        }
      } else {
        calc {
          Entries(ReplaceAt(t, p, s));
          Entries(t.left) + n + Entries(ReplaceAt(c, q, s));
          Entries(t.left) + n + (Before(c, q) + Entries(s) + After(c, q));
          (Entries(t.left) + n + Before(c, q)) + Entries(s) + After(c, q);
        }
      }
    }
  }

  /** The entries of a tree split around any slot. */
  lemma EntriesAround<V>(t: Tree<V>, p: seq<Dir>)
    requires ValidPath(t, p)
    ensures Entries(t) == Before(t, p) + Entries(At(t, p)) + After(t, p)
  {
    ReplaceAtSame(t, p);
    ReplaceAtEntries(t, p, At(t, p));
  }

  /** How the neighbours of a slot change one step further down. */
  lemma {:induction false} BeforeAfterStep<V>(t: Tree<V>, p: seq<Dir>, d: Dir)
    requires ValidPath(t, p) && At(t, p).Node?
    ensures ValidPath(t, p + [d])
    ensures var n := At(t, p);
      if d == L then
        Before(t, p + [d]) == Before(t, p) &&
        After(t, p + [d]) == [Entry(n.key, n.value)] + Entries(n.right) + After(t, p)
      else
        Before(t, p + [d]) == Before(t, p) + Entries(n.left) + [Entry(n.key, n.value)] &&
        After(t, p + [d]) == After(t, p)
  {
    Step(t, p, d);
    if p == [] {
      assert [d][1..] == [];
    } else {
      assert (p + [d])[0] == p[0] && (p + [d])[1..] == p[1..] + [d];
      BeforeAfterStep(Child(t, p[0]), p[1..], d);
    }
  }

  // ---------------------------------------------------------------------
  // The ordering invariant

  lemma KeysOfNode<V>(t: Tree<V>)
    requires t.Node?
    ensures Keys(t) == Keys(t.left) + {t.key} + Keys(t.right)
  {
    KeysOfAppend(Entries(t.left) + [Entry(t.key, t.value)], Entries(t.right));
    KeysOfAppend(Entries(t.left), [Entry(t.key, t.value)]);
  }

  /** The strict-left ordering makes the in-order keys non-decreasing. */
  lemma {:induction false} OrderedIsSorted<V>(t: Tree<V>)
    requires Ordered(t)
    ensures Sorted(Entries(t))
  {
    if t.Node? {
      OrderedIsSorted(t.left);
      OrderedIsSorted(t.right);
      var l, r := Entries(t.left), Entries(t.right);
      forall i | 0 <= i < |l| ensures l[i].key <= t.key {
        KeyInKeysOf(l, i);
      }
      forall i | 0 <= i < |r| ensures t.key <= r[i].key {
        KeyInKeysOf(r, i);
      }
      SortedJoin(l, Entry(t.key, t.value), r);
    }
  }

  /** Every subtree of an ordered tree is ordered. */
  lemma {:induction false} OrderedAt<V>(t: Tree<V>, p: seq<Dir>)
    requires Ordered(t) && ValidPath(t, p)
    ensures Ordered(At(t, p))
  {
    if p != [] {
      OrderedAt(Child(t, p[0]), p[1..]);
    }
  }

  /**
   * In an ordered tree a child is the left one exactly when its key is below
   * its parent's: the key comparison finds the slot that holds the child.
   */
  lemma ChildSide<V>(t: Tree<V>, q: seq<Dir>, d: Dir)
    requires Ordered(t) && ValidPath(t, q) && At(t, q).Node? && Child(At(t, q), d).Node?
    ensures d == L <==> Child(At(t, q), d).key < At(t, q).key
  {
    OrderedAt(t, q);
    var n := At(t, q);
    KeysOfNode(Child(n, d));
    assert Child(n, d).key in KeysOf(Entries(Child(n, d)));
  }

  /**
   * Overwriting a slot with an ordered subtree drawn from the keys it replaces
   * keeps the whole tree ordered.
   */
  lemma {:induction false} ReplaceAtOrdered<V>(t: Tree<V>, p: seq<Dir>, s: Tree<V>)
    requires Ordered(t) && ValidPath(t, p) && Ordered(s) && Keys(s) <= Keys(At(t, p))
    ensures Ordered(ReplaceAt(t, p, s)) && Keys(ReplaceAt(t, p, s)) <= Keys(t)
  {
    if p != [] {
      ReplaceAtOrdered(Child(t, p[0]), p[1..], s);
      KeysOfNode(t);
      KeysOfNode(ReplaceAt(t, p, s));
    }
  }

  // ---------------------------------------------------------------------
  // What insert and delete compute, as functions

  /** The tree after inserting a leaf where the descent of BinarySearchTree.java:60-76 ends. */
  function Inserted<V>(t: Tree<V>, key: int, value: V): (r: Tree<V>)
    ensures r.Node?
  {
    if t == Nil then Node(key, value, Nil, Nil)
    else if key < t.key then t.(left := Inserted(t.left, key, value))
    else t.(right := Inserted(t.right, key, value))
  }

  /** Insertion adds one entry, placed after every entry whose key is at most `key`. */
  lemma {:induction false} InsertedEntries<V>(t: Tree<V>, key: int, value: V)
    requires Ordered(t)
    ensures Entries(Inserted(t, key, value)) == InsertEntry(Entries(t), key, value)
  {
    if t.Node? {
      var e, l, r := Entry(t.key, t.value), Entries(t.left), Entries(t.right);
      if key < t.key {
        InsertedEntries(t.left, key, value);
        assert Entries(t) == l + ([e] + r);
        InsertEntryBefore(l, [e] + r, key, value);
      } else {
        InsertedEntries(t.right, key, value);
        forall i | 0 <= i < |l + [e]| ensures (l + [e])[i].key <= key {
          if i < |l| {
            KeyInKeysOf(l, i);
          }
        }
        InsertEntryAfter(l + [e], r, key, value);
      }
    }
  }

  /** Insertion keeps the tree ordered and adds exactly `key` to its keys. */
  lemma {:induction false} InsertedOrdered<V>(t: Tree<V>, key: int, value: V)
    requires Ordered(t)
    ensures Ordered(Inserted(t, key, value))
    ensures Keys(Inserted(t, key, value)) == Keys(t) + {key}
  {
    var r := Inserted(t, key, value);
    if t == Nil {
      assert Entries(r) == [Entry(key, value)];
    } else {
      KeysOfNode(t);
      KeysOfNode(r);
      if key < t.key {
        InsertedOrdered(t.left, key, value);
      } else {
        InsertedOrdered(t.right, key, value);
      }
    }
  }

  /** Insertion adds exactly one node. */
  lemma {:induction false} InsertedSize<V>(t: Tree<V>, key: int, value: V)
    ensures Size(Inserted(t, key, value)) == Size(t) + 1
  {
    if t.Node? {
      if key < t.key {
        InsertedSize(t.left, key, value);
      } else {
        InsertedSize(t.right, key, value);
      }
    }
  }

  /** The leftmost node of a non-empty subtree: the end of the walk at lines 149-152. */
  function Leftmost<V>(t: Tree<V>): (m: Tree<V>)
    requires t.Node?
    ensures m.Node? && m.left == Nil
  {
    if t.left == Nil then t else Leftmost(t.left)
  }

  /** The subtree with its leftmost node spliced out (replaced by its right child). */
  function RemoveMin<V>(t: Tree<V>): Tree<V>
    requires t.Node?
  {
    if t.left == Nil then t.right else t.(left := RemoveMin(t.left))
  }

  /** The leftmost node holds the first entry, and RemoveMin drops exactly that entry. */
  lemma {:induction false} RemoveMinEntries<V>(t: Tree<V>)
    requires t.Node?
    ensures Entries(t) == [Entry(Leftmost(t).key, Leftmost(t).value)] + Entries(RemoveMin(t))
  {
    if t.left != Nil {
      RemoveMinEntries(t.left);
    }
  }

  /** In an ordered tree the leftmost node holds a smallest key. */
  lemma LeftmostIsMin<V>(t: Tree<V>)
    requires t.Node? && Ordered(t)
    ensures Leftmost(t).key in Keys(t)
    ensures forall x :: x in Keys(t) ==> Leftmost(t).key <= x
  {
    RemoveMinEntries(t);
    OrderedIsSorted(t);
    var es := Entries(t);
    KeyInKeysOf(es, 0);
    forall i | 0 <= i < |es| ensures es[0].key <= es[i].key {
    }
    KeysOfAtLeast(es, es[0].key);
  }

  /** Removing the leftmost node keeps the subtree ordered and adds no key. */
  lemma {:induction false} RemoveMinOrdered<V>(t: Tree<V>)
    requires t.Node? && Ordered(t)
    ensures Ordered(RemoveMin(t)) && Keys(RemoveMin(t)) <= Keys(t)
  {
    KeysOfNode(t);
    if t.left != Nil {
      RemoveMinOrdered(t.left);
      KeysOfNode(RemoveMin(t));
    }
  }

  /**
   * What `helpDelete` leaves in the slot of the node it deletes: the only
   * child (or nothing), or, for two children, the node carrying its
   * successor's key and value over a right subtree without the successor.
   */
  function Spliced<V>(n: Tree<V>): (r: Tree<V>)
    requires n.Node?
    ensures r == Nil <==> n.left == Nil && n.right == Nil
  {
    if n.left == Nil || n.right == Nil then (if n.left != Nil then n.left else n.right)
    else
      var m := Leftmost(n.right);
      n.(key := m.key, value := m.value, right := RemoveMin(n.right))
  }

  /** Splicing out a node drops exactly that node's own entry. */
  lemma SplicedEntries<V>(n: Tree<V>)
    requires n.Node?
    ensures Entries(Spliced(n)) == Entries(n.left) + Entries(n.right)
  {
    if n.left != Nil && n.right != Nil {
      RemoveMinEntries(n.right);
    }
  }

  /** Splicing out a node keeps the subtree ordered and adds no key. */
  lemma SplicedOrdered<V>(n: Tree<V>)
    requires n.Node? && Ordered(n)
    ensures Ordered(Spliced(n)) && Keys(Spliced(n)) <= Keys(n)
  {
    KeysOfNode(n);
    if n.left != Nil && n.right != Nil {
      var m := Leftmost(n.right);
      LeftmostIsMin(n.right);
      RemoveMinOrdered(n.right);
      KeysOfNode(Spliced(n));
    }
  }

  /** Copying the successor's key and value into a two-child node keeps the tree ordered. */
  lemma CopySuccessorOrdered<V>(n: Tree<V>)
    requires n.Node? && n.right.Node? && Ordered(n)
    ensures var m := Leftmost(n.right);
      Ordered(n.(key := m.key, value := m.value)) && Keys(n.(key := m.key, value := m.value)) <= Keys(n)
  {
    var m := Leftmost(n.right);
    KeysOfNode(n);
    LeftmostIsMin(n.right);
    KeysOfNode(n.(key := m.key, value := m.value));
  }

  /** At the node with the key, replacing it by its splice removes the first entry with that key. */
  lemma DeleteAtEntries<V>(t: Tree<V>, p: seq<Dir>, key: int)
    requires Ordered(t) && ValidPath(t, p) && At(t, p).Node? && At(t, p).key == key
    requires key !in KeysOf(Before(t, p))
    ensures Entries(ReplaceAt(t, p, Spliced(At(t, p)))) == RemoveFirstKey(Entries(t), key)
  {
    var n := At(t, p);
    var e := Entry(n.key, n.value);
    assert key !in KeysOf(Entries(n.left)) by {
      OrderedAt(t, p);
    }
    assert Entries(t) == Before(t, p) + (Entries(n.left) + [e] + Entries(n.right)) + After(t, p) by {
      EntriesAround(t, p);
    }
    assert Entries(ReplaceAt(t, p, Spliced(n))) ==
      Before(t, p) + (Entries(n.left) + Entries(n.right)) + After(t, p) by {
      ReplaceAtEntries(t, p, Spliced(n));
      SplicedEntries(n);
    }
    RemoveFirstKeyWithin(Before(t, p), Entries(n.left), e, Entries(n.right), After(t, p));
  }

  /** One step of the descent of BinarySearchTree.java:176-184 keeps what the find loop knows. */
  lemma DescentStep<V>(t: Tree<V>, p: seq<Dir>, key: int, d: Dir)
    requires Ordered(t) && ValidPath(t, p) && At(t, p).Node? && key != At(t, p).key
    requires d == (if key < At(t, p).key then L else R)
    ensures ValidPath(t, p + [d]) && At(t, p + [d]) == Child(At(t, p), d)
    ensures key in Keys(At(t, p)) <==> key in Keys(At(t, p + [d]))
    ensures key !in KeysOf(Before(t, p)) ==> key !in KeysOf(Before(t, p + [d]))
  {
    var n := At(t, p);
    Step(t, p, d);
    BeforeAfterStep(t, p, d);
    OrderedAt(t, p);
    KeysOfNode(n);
    if d == R {
      KeysOfAppend(Before(t, p) + Entries(n.left), [Entry(n.key, n.value)]);
      KeysOfAppend(Before(t, p), Entries(n.left));
    }
  }

  /** The descent finds a key in an ordered tree exactly when the key is there. */
  function RecurSearch<V>(t: Tree<V>, key: int): (r: Tree<V>)
    ensures r.Node? ==> r.key == key && Entry(r.key, r.value) in Entries(t)
  {
    if t == Nil then Nil
    else if key == t.key then t
    else if key > t.key then RecurSearch(t.right, key)
    else RecurSearch(t.left, key)
  }

  lemma {:induction false} SearchComplete<V>(t: Tree<V>, key: int)
    requires Ordered(t)
    ensures RecurSearch(t, key) == Nil <==> key !in Keys(t)
  {
    if t.Node? {
      KeysOfNode(t);
      if key > t.key {
        SearchComplete(t.right, key);
      } else if key < t.key {
        SearchComplete(t.left, key);
      }
    }
  }

  lemma {:induction false} SizeIsLength<V>(t: Tree<V>)
    ensures Size(t) == |Entries(t)|
  {
    if t.Node? {
      SizeIsLength(t.left);
      SizeIsLength(t.right);
    }
  }

  /**
   * The two-child case of `helpDelete`: after copying the successor `m` (reached from the
   * node's right child along `down`) into the node, deleting `m`'s own node leaves in the
   * node's slot exactly the splice of the node.
   */
  lemma SuccessorSplice<V>(t: Tree<V>, p: seq<Dir>, down: seq<Dir>)
    requires ValidPath(t, p) && At(t, p).Node? && At(t, p).left.Node? && At(t, p).right.Node?
    requires ValidPath(At(t, p).right, down) && At(At(t, p).right, down).Node?
    requires At(At(t, p).right, down) == Leftmost(At(t, p).right)
    requires RemoveMin(At(t, p).right) ==
      ReplaceAt(At(t, p).right, down, RemoveMin(At(At(t, p).right, down)))
    ensures var n := At(t, p);
      var m := At(n.right, down);
      var t1 := ReplaceAt(t, p, n.(key := m.key, value := m.value));
      ValidPath(t1, p + [R] + down) && At(t1, p + [R] + down) == m &&
      ReplaceAt(t1, p + [R] + down, Spliced(m)) == ReplaceAt(t, p, Spliced(n))
  {
    var n := At(t, p);
    var m := At(n.right, down);
    var c := n.(key := m.key, value := m.value);
    var t1 := ReplaceAt(t, p, c);
    var q := [R] + down;
    assert q[0] == R && q[1..] == down;
    assert p + [R] + down == p + q;
    AtReplaceAt(t, p, c);
    AtAppend(t1, p, q);
    ReplaceAtAppend(t1, p, q, Spliced(m));
    assert ReplaceAt(c, q, Spliced(m)) == Spliced(n);
    ReplaceAtTwice(t, p, c, Spliced(n));
  }

  /** The slot of a non-root node is its parent's side the key comparison of `helpDelete` picks. */
  lemma ParentSlot<V>(t: Tree<V>, p: seq<Dir>, parentPath: seq<Dir>)
    requires Ordered(t) && ValidPath(t, p) && At(t, p).Node? && p != []
    requires parentPath == p[..|p| - 1]
    ensures ValidPath(t, parentPath) && At(t, parentPath).Node?
    ensures p == parentPath + [if At(t, p).key < At(t, parentPath).key then L else R]
  {
    var d := p[|p| - 1];
    assert p == parentPath + [d];
    ValidPrefix(t, parentPath, [d]);
    assert [d][1..] == [];
    ChildSide(t, parentPath, d);
  }

  // ---------------------------------------------------------------------
  // The tree object (BinarySearchTree.java:30-234)

  class BinarySearchTree<V> {
    var root: Tree<V>

    ghost predicate Valid()
      reads this
    {
      Ordered(root)
    }

    constructor()
      ensures Valid() && root == Nil
    {
      root := Nil;
    }

    /**
     * `insert`: descend with `pointer` and `parent` until `pointer` is null,
     * then attach a new leaf on the side of `parent` the key comparison picks.
     */
    method Insert(key: int, value: V)
      requires Valid()
      modifies this
      ensures Valid()
      ensures root == Inserted(old(root), key, value)
      ensures Entries(root) == InsertEntry(old(Entries(root)), key, value)
      ensures Keys(root) == old(Keys(root)) + {key} && Size(root) == old(Size(root)) + 1
    {
      InsertedEntries(root, key, value);
      InsertedOrdered(root, key, value);
      InsertedSize(root, key, value);
      if root == Nil {
        root := Node(key, value, Nil, Nil);
      } else {
        var t := root;
        var pointer := t;
        var path: seq<Dir> := [];
        var parentPath: seq<Dir> := [];
        while pointer != Nil
          invariant ValidPath(t, path) && At(t, path) == pointer
          invariant Inserted(t, key, value) == ReplaceAt(t, path, Inserted(pointer, key, value))
          invariant path != [] ==>
            (ValidPath(t, parentPath) && At(t, parentPath).Node? &&
             path == parentPath + [if key < At(t, parentPath).key then L else R])
          decreases pointer
        {
          var d := if key < pointer.key then L else R;
          Step(t, path, d);
          ReplaceAtAppend(t, path, [d], Inserted(Child(pointer, d), key, value));
          assert [d][1..] == [];
          parentPath := path;
          pointer := Child(pointer, d);
          path := path + [d];
        }
        assert path != [];
        var parent := At(t, parentPath);
        var nodeToInsert := Node(key, value, Nil, Nil);
        if key < parent.key {
          root := ReplaceAt(t, parentPath + [L], nodeToInsert);
        } else {
          root := ReplaceAt(t, parentPath + [R], nodeToInsert);
        }
      }
    }

    /**
     * `helpDelete`: splice out the node at `nodePath`, whose parent is at `parentPath`.
     * A node with at most one child is replaced in its parent's slot by that child; a node
     * with two children takes its successor's key and value, and the successor's node is
     * then deleted by the same method.
     */
    method HelpDelete(nodePath: seq<Dir>, parentPath: seq<Dir>)
      requires Ordered(root) && ValidPath(root, nodePath) && At(root, nodePath).Node?
      requires nodePath != [] ==> parentPath == nodePath[..|nodePath| - 1]
      modifies this
      ensures root == ReplaceAt(old(root), nodePath, Spliced(old(At(root, nodePath))))
      ensures Ordered(root)
      decreases if At(root, nodePath).left != Nil && At(root, nodePath).right != Nil then 1 else 0
    {
      var t := root;
      var nodeToDelete := At(t, nodePath);
      OrderedAt(t, nodePath);
      if nodeToDelete.left == Nil || nodeToDelete.right == Nil {
        SplicedOrdered(nodeToDelete);
        ReplaceAtOrdered(t, nodePath, Spliced(nodeToDelete));
        var child := if nodeToDelete.left != Nil then nodeToDelete.left else nodeToDelete.right;
        if nodePath == [] {
          root := child;
        } else {
          ParentSlot(t, nodePath, parentPath);
          var parent := At(t, parentPath);
          if nodeToDelete.key < parent.key {
            root := ReplaceAt(t, parentPath + [L], child);
          } else {
            root := ReplaceAt(t, parentPath + [R], child);
          }
        }
      } else {
        var right := nodeToDelete.right;
        var nodeToReplace := right;
        ghost var down: seq<Dir> := [];
        var replacePath := nodePath + [R];
        var replaceParentPath := nodePath;
        while nodeToReplace.left != Nil
          invariant ValidPath(right, down) && At(right, down) == nodeToReplace && nodeToReplace.Node?
          invariant Leftmost(right) == Leftmost(nodeToReplace)
          invariant RemoveMin(right) == ReplaceAt(right, down, RemoveMin(nodeToReplace))
          invariant replacePath == nodePath + [R] + down
          invariant replaceParentPath == replacePath[..|replacePath| - 1]
          decreases nodeToReplace
        {
          Step(right, down, L);
          ReplaceAtAppend(right, down, [L], RemoveMin(nodeToReplace.left));
          assert [L][1..] == [];
          replaceParentPath := replacePath;
          nodeToReplace := nodeToReplace.left;
          down := down + [L];
          replacePath := replacePath + [L];
        }
        var copied := nodeToDelete.(key := nodeToReplace.key, value := nodeToReplace.value);
        CopySuccessorOrdered(nodeToDelete);
        ReplaceAtOrdered(t, nodePath, copied);
        SuccessorSplice(t, nodePath, down);
        root := ReplaceAt(t, nodePath, copied);
        HelpDelete(replacePath, replaceParentPath);
      }
    }

    /**
     * `delete`: descend to the first node with the key, remembering its parent, and splice it
     * out; nothing changes when the key is absent.
     */
    method Delete(key: int)
      requires Valid()
      modifies this
      ensures Valid()
      ensures Entries(root) == RemoveFirstKey(old(Entries(root)), key)
      ensures key !in old(Keys(root)) ==> root == old(root)
      ensures Size(root) == old(Size(root)) - (if key in old(Keys(root)) then 1 else 0)
    {
      SizeIsLength(root);
      RemoveFirstKeySize(Entries(root), key);
      if root == Nil {
        return;
      }
      var t := root;
      var pointer := t;
      var path: seq<Dir> := [];
      var parentPath: seq<Dir> := [];
      while pointer != Nil && key != pointer.key
        invariant root == t
        invariant ValidPath(t, path) && At(t, path) == pointer
        invariant path != [] ==> parentPath == path[..|path| - 1]
        invariant key !in KeysOf(Before(t, path))
        invariant key in Keys(t) <==> key in Keys(pointer)
        decreases pointer
      {
        var d := if key < pointer.key then L else R;
        DescentStep(t, path, key, d);
        parentPath := path;
        pointer := Child(pointer, d);
        path := path + [d];
      }
      if pointer != Nil {
        KeysOfNode(pointer);
        DeleteAtEntries(t, path, key);
        HelpDelete(path, parentPath);
      } else {
        RemoveFirstKeyAbsent(Entries(t), key);
      }
      SizeIsLength(root);
    }

    /** `search`: the value of the first node met with this key, or None (`null`). */
    function Search(key: int): (r: Option<V>)
      requires Valid()
      reads this
      ensures r.Some? ==> Entry(key, r.value) in Entries(root)
      ensures r.None? <==> key !in Keys(root)
    {
      SearchComplete(root, key);
      var node := RecurSearch(root, key);
      if node == Nil then None else Some(node.value)
    }

    /** `recurInorder`: append the values of a non-empty subtree, in in-order, to the list. */
    method RecurInorder(t: Tree<V>, list: seq<V>) returns (out: seq<V>)
      requires t.Node?
      ensures out == list + ValuesOf(Entries(t))
      decreases t
    {
      out := list;
      if t.left != Nil {
        out := RecurInorder(t.left, out);
      }
      out := out + [t.value];
      if t.right != Nil {
        out := RecurInorder(t.right, out);
      }
      ValuesOfAppend(Entries(t.left) + [Entry(t.key, t.value)], Entries(t.right));
      ValuesOfAppend(Entries(t.left), [Entry(t.key, t.value)]);
    }

    /** `inorderRec`: the values in in-order, hence in non-decreasing key order. */
    method InorderRec() returns (list: seq<V>)
      ensures list == ValuesOf(Entries(root))
      ensures |list| == Size(root)
    {
      list := [];
      if root != Nil {
        list := RecurInorder(root, list);
      }
      SizeIsLength(root);
    }

    /** `kthSmallest`: the value at in-order position k (1-based); out of range is the Java exception. */
    method KthSmallest(k: int) returns (r: Result<V>)
      ensures r.Ok? <==> 1 <= k <= Size(root)
      ensures r.Ok? ==> k <= |Entries(root)| && r.value == Entries(root)[k - 1].value
    {
      var list := InorderRec();
      r := Get(list, k - 1);
      if r.Ok? {
        SizeIsLength(root);
        ValuesOfIndex(Entries(root), k - 1);
      }
    }
  }
}
