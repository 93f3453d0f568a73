/**
 * The contract shared by both ordered trees: entries (key, value) listed in
 * in-order position, the list operations the trees rely on, and the
 * sequence-level specifications of insert, delete and k-th smallest.
 */
module OrderedEntries {

  datatype Option<+T> = None | Some(value: T)

  /** The only error of the contract: a k-th smallest query outside [1, size]. */
  datatype Error = OutOfRange

  datatype Result<+T> = Ok(value: T) | Err(error: Error)

  /** One (key, value) association as it appears in an in-order listing. */
  datatype Entry<V> = Entry(key: int, value: V)

  function KeysOf<V>(s: seq<Entry<V>>): set<int>
  {
    if s == [] then {} else {s[0].key} + KeysOf(s[1..])
  }

  /** In-order keys never decrease. */
  ghost predicate Sorted<V>(s: seq<Entry<V>>)
  {
    forall i, j :: 0 <= i < j < |s| ==> s[i].key <= s[j].key
  }

  /** In-order keys strictly increase: every key occurs once. */
  ghost predicate StrictlySorted<V>(s: seq<Entry<V>>)
  {
    forall i, j :: 0 <= i < j < |s| ==> s[i].key < s[j].key
  }

  /** The values of an entry list, in order: what `inorderRec` returns. */
  function ValuesOf<V>(s: seq<Entry<V>>): (r: seq<V>)
    ensures |r| == |s|
  {
    if s == [] then [] else [s[0].value] + ValuesOf(s[1..])
  }

  /**
   * Insertion with the right-biased tie rule: the new entry goes before the
   * first entry whose key is larger, i.e. after every entry with key <= key.
   */
  function InsertEntry<V>(s: seq<Entry<V>>, key: int, value: V): seq<Entry<V>>
  {
    if s == [] then [Entry(key, value)]
    else if s[0].key <= key then [s[0]] + InsertEntry(s[1..], key, value)
    else [Entry(key, value)] + s
  }

  /** Removal of the first entry (in order) whose key is `key`; no-op when absent. */
  function RemoveFirstKey<V>(s: seq<Entry<V>>, key: int): seq<Entry<V>>
  {
    if s == [] then []
    else if s[0].key == key then s[1..]
    else [s[0]] + RemoveFirstKey(s[1..], key)
  }

  /** Where InsertEntry puts the new entry: the index of the first entry above `key`. */
  function InsertIndex<V>(s: seq<Entry<V>>, key: int): (i: nat)
    ensures i <= |s|
  {
    if s == [] || key < s[0].key then 0 else 1 + InsertIndex(s[1..], key)
  }

  /**
   * `list.get(index)` of a Java list: the element at a 0-based index, or the
   * out-of-range error that `IndexOutOfBoundsException` signals.
   */
  function Get<V>(list: seq<V>, index: int): Result<V>
  {
    if 0 <= index < |list| then Ok(list[index]) else Err(OutOfRange)
  }

  // ---------------------------------------------------------------------
  // Lemmas about the list specifications

  lemma {:induction false} KeysOfAppend<V>(a: seq<Entry<V>>, b: seq<Entry<V>>)
    ensures KeysOf(a + b) == KeysOf(a) + KeysOf(b)
  {
    if a == [] {
      assert a + b == b;
    } else {
      assert (a + b)[1..] == a[1..] + b;
      KeysOfAppend(a[1..], b);
    }
  }

  lemma {:induction false} KeyInKeysOf<V>(s: seq<Entry<V>>, j: int)
    requires 0 <= j < |s|
    ensures s[j].key in KeysOf(s)
  {
    if j > 0 {
      KeyInKeysOf(s[1..], j - 1);
    }
  }

  lemma {:induction false} KeysOfAbove<V>(s: seq<Entry<V>>, lo: int)
    requires forall j :: 0 <= j < |s| ==> lo < s[j].key
    ensures forall x :: x in KeysOf(s) ==> lo < x
  {
    if s != [] {
      KeysOfAbove(s[1..], lo);
    }
  }

  lemma {:induction false} ValuesOfAppend<V>(a: seq<Entry<V>>, b: seq<Entry<V>>)
    ensures ValuesOf(a + b) == ValuesOf(a) + ValuesOf(b)
  {
    if a == [] {
      assert a + b == b;
    } else {
      assert (a + b)[1..] == a[1..] + b;
      ValuesOfAppend(a[1..], b);
    }
  }

  lemma {:induction false} ValuesOfIndex<V>(s: seq<Entry<V>>, i: int)
    requires 0 <= i < |s|
    ensures ValuesOf(s)[i] == s[i].value
  {
    if i > 0 {
      ValuesOfIndex(s[1..], i - 1);
    }
  }

  /** Entries all at most `key` are skipped by the insertion. */
  lemma {:induction false} InsertEntryAfter<V>(a: seq<Entry<V>>, b: seq<Entry<V>>, key: int, value: V)
    requires forall i :: 0 <= i < |a| ==> a[i].key <= key
    ensures InsertEntry(a + b, key, value) == a + InsertEntry(b, key, value)
  {
    if a == [] {
      assert a + b == b;
    } else {
      assert (a + b)[1..] == a[1..] + b;
      InsertEntryAfter(a[1..], b, key, value);
    }
  }

  /** When `b` starts above `key`, the insertion happens inside `a` or just before `b`. */
  lemma {:induction false} InsertEntryBefore<V>(a: seq<Entry<V>>, b: seq<Entry<V>>, key: int, value: V)
    requires b != [] ==> key < b[0].key
    ensures InsertEntry(a + b, key, value) == InsertEntry(a, key, value) + b
  {
    if a == [] {
      assert a + b == b;
    } else {
      assert (a + b)[1..] == a[1..] + b;
      InsertEntryBefore(a[1..], b, key, value);
    }
  }

  /** Inserting a key below `e` leaves `e` and everything after it in place. */
  lemma InsertEntryBeforeNode<V>(a: seq<Entry<V>>, e: Entry<V>, b: seq<Entry<V>>, key: int, value: V)
    requires key < e.key
    ensures InsertEntry(a + [e] + b, key, value) == InsertEntry(a, key, value) + [e] + b
  {
    calc {
      InsertEntry(a + [e] + b, key, value);
      { assert a + [e] + b == a + ([e] + b); }
      InsertEntry(a + ([e] + b), key, value);
      { InsertEntryBefore(a, [e] + b, key, value); }
      InsertEntry(a, key, value) + ([e] + b);
      InsertEntry(a, key, value) + [e] + b;
    }
  }

  /**
   * InsertEntry splices the new entry in at InsertIndex: after a prefix whose
   * keys are all at most `key` (equal keys stay in front) and before an entry
   * with a larger key.
   */
  lemma {:induction false} InsertEntryIsSplice<V>(s: seq<Entry<V>>, key: int, value: V)
    ensures var i := InsertIndex(s, key);
      && InsertEntry(s, key, value) == s[..i] + [Entry(key, value)] + s[i..]
      && (forall j :: 0 <= j < i ==> s[j].key <= key)
      && (i < |s| ==> key < s[i].key)
  {
    if s != [] && s[0].key <= key {
      var t := s[1..];
      InsertEntryIsSplice(t, key, value);
      var i := InsertIndex(t, key);
      assert s[..i + 1] == [s[0]] + t[..i];
      assert s[i + 1..] == t[i..];
      forall j | 0 <= j < i + 1 ensures s[j].key <= key {
        if j > 0 { assert s[j] == t[j - 1]; }
      }
    }
  }

  /** InsertEntry adds the new key and exactly one entry. */
  lemma {:induction false} InsertEntryKeys<V>(s: seq<Entry<V>>, key: int, value: V)
    ensures KeysOf(InsertEntry(s, key, value)) == KeysOf(s) + {key}
    ensures |InsertEntry(s, key, value)| == |s| + 1
  {
    if s != [] && s[0].key <= key {
      InsertEntryKeys(s[1..], key, value);
    }
  }

  /** On a sorted list, InsertEntry adds exactly one entry and keeps the list sorted. */
  lemma InsertEntrySorted<V>(s: seq<Entry<V>>, key: int, value: V)
    requires Sorted(s)
    ensures Sorted(InsertEntry(s, key, value))
    ensures multiset(InsertEntry(s, key, value)) == multiset(s) + multiset{Entry(key, value)}
    ensures forall j :: InsertIndex(s, key) <= j < |s| ==> key < s[j].key
  {
    InsertEntryIsSplice(s, key, value);
    SpliceSorted(s, InsertIndex(s, key), Entry(key, value));
  }

  lemma SpliceSorted<V>(s: seq<Entry<V>>, i: nat, e: Entry<V>)
    requires Sorted(s) && i <= |s|
    requires forall j :: 0 <= j < i ==> s[j].key <= e.key
    requires i < |s| ==> e.key < s[i].key
    ensures forall j :: i <= j < |s| ==> e.key < s[j].key
    ensures Sorted(s[..i] + [e] + s[i..])
    ensures multiset(s[..i] + [e] + s[i..]) == multiset(s) + multiset{e}
  {
    SortedAbove(s, i, e.key);
    SpliceMultiset(s, i, e);
    SortedSlices(s, i);
    SpliceBound(s, i, e);
    SortedConcat(s[..i], [e]);
    SortedConcat(s[..i] + [e], s[i..]);
  }

  /** Splicing an entry in adds exactly that entry. */
  lemma SpliceMultiset<V>(s: seq<Entry<V>>, i: nat, e: Entry<V>)
    requires i <= |s|
    ensures multiset(s[..i] + [e] + s[i..]) == multiset(s) + multiset{e}
  {
    assert s == s[..i] + s[i..];
  }

  /** Every entry up to the new one is at most every entry after it. */
  lemma SpliceBound<V>(s: seq<Entry<V>>, i: nat, e: Entry<V>)
    requires i <= |s|
    requires forall j :: 0 <= j < i ==> s[j].key <= e.key
    requires forall j :: i <= j < |s| ==> e.key < s[j].key
    ensures forall a, b :: 0 <= a < |s[..i] + [e]| && 0 <= b < |s[i..]| ==> (s[..i] + [e])[a].key <= s[i..][b].key
  {
    forall a, b | 0 <= a < |s[..i] + [e]| && 0 <= b < |s[i..]| ensures (s[..i] + [e])[a].key <= s[i..][b].key {
      assert s[i..][b] == s[i + b];
      if a < i { assert (s[..i] + [e])[a] == s[a]; }
    }
  }

  /** Both parts of a sorted list cut at `i` are sorted. */
  lemma SortedSlices<V>(s: seq<Entry<V>>, i: nat)
    requires Sorted(s) && i <= |s|
    ensures Sorted(s[..i]) && Sorted(s[i..])
  {
    var front, back := s[..i], s[i..];
    forall x, y | 0 <= x < y < |front| ensures front[x].key <= front[y].key {
      assert front[x] == s[x] && front[y] == s[y];
    }
    forall x, y | 0 <= x < y < |back| ensures back[x].key <= back[y].key {
      assert back[x] == s[i + x] && back[y] == s[i + y];
    }
  }

  lemma SortedAbove<V>(s: seq<Entry<V>>, i: nat, k: int)
    requires Sorted(s) && i <= |s|
    requires i < |s| ==> k < s[i].key
    ensures forall j :: i <= j < |s| ==> k < s[j].key
  {
    forall j | i <= j < |s| ensures k < s[j].key {
      assert s[i].key <= s[j].key;
    }
  }

  lemma SortedConcat<V>(a: seq<Entry<V>>, b: seq<Entry<V>>)
    requires Sorted(a) && Sorted(b)
    requires forall x, y :: 0 <= x < |a| && 0 <= y < |b| ==> a[x].key <= b[y].key
    ensures Sorted(a + b)
  {
    var u := a + b;
    forall x, y | 0 <= x < y < |u| ensures u[x].key <= u[y].key {
      if y < |a| {
        assert u[x] == a[x] && u[y] == a[y];
      } else if x < |a| {
        assert u[x] == a[x] && u[y] == b[y - |a|];
      } else {
        assert u[x] == b[x - |a|] && u[y] == b[y - |a|];
      }
    }
  }

  /** Removal distributes over concatenation: it acts in the part holding the first match. */
  lemma {:induction false} RemoveFirstKeyAppend<V>(a: seq<Entry<V>>, b: seq<Entry<V>>, key: int)
    ensures RemoveFirstKey(a + b, key) ==
      if key in KeysOf(a) then RemoveFirstKey(a, key) + b else a + RemoveFirstKey(b, key)
  {
    if a == [] {
      assert a + b == b;
    } else {
      assert (a + b)[1..] == a[1..] + b;
      RemoveFirstKeyAppend(a[1..], b, key);
    }
  }

  lemma {:induction false} RemoveFirstKeyAbsent<V>(s: seq<Entry<V>>, key: int)
    requires key !in KeysOf(s)
    ensures RemoveFirstKey(s, key) == s
  {
    if s != [] {
      RemoveFirstKeyAbsent(s[1..], key);
    }
  }

  /**
   * RemoveFirstKey removes exactly one entry when the key is present, and
   * nothing otherwise; on a list with distinct keys it removes that key.
   */
  lemma {:induction false} RemoveFirstKeySize<V>(s: seq<Entry<V>>, key: int)
    ensures |RemoveFirstKey(s, key)| == |s| - (if key in KeysOf(s) then 1 else 0)
    ensures KeysOf(RemoveFirstKey(s, key)) <= KeysOf(s)
  {
    if s != [] {
      RemoveFirstKeySize(s[1..], key);
    }
  }

  lemma {:induction false} RemoveFirstKeyDistinct<V>(s: seq<Entry<V>>, key: int)
    requires StrictlySorted(s)
    ensures KeysOf(RemoveFirstKey(s, key)) == KeysOf(s) - {key}
    ensures StrictlySorted(RemoveFirstKey(s, key))
  {
    if s != [] {
      var t := s[1..];
      StrictlySortedTail(s);
      RemoveFirstKeyDistinct(t, key);
      if s[0].key == key {
        assert RemoveFirstKey(s, key) == t;
      } else {
        assert RemoveFirstKey(s, key) == [s[0]] + RemoveFirstKey(t, key);
        assert KeysOf(RemoveFirstKey(s, key)) == {s[0].key} + KeysOf(RemoveFirstKey(t, key)) by {
          assert ([s[0]] + RemoveFirstKey(t, key))[1..] == RemoveFirstKey(t, key);
        }
        ConsStrictlySorted(s[0], RemoveFirstKey(t, key));
      }
    }
  }

  /** The tail of a strictly sorted list is strictly sorted and lies above its head. */
  lemma StrictlySortedTail<V>(s: seq<Entry<V>>)
    requires StrictlySorted(s) && s != []
    ensures StrictlySorted(s[1..])
    ensures forall x :: x in KeysOf(s[1..]) ==> s[0].key < x
  {
    var t := s[1..];
    assert forall j :: 0 <= j < |t| ==> s[0].key < t[j].key by {
      forall j | 0 <= j < |t| ensures s[0].key < t[j].key { assert t[j] == s[j + 1]; }
    }
    KeysOfAbove(t, s[0].key);
  }

  lemma ConsStrictlySorted<V>(e: Entry<V>, r: seq<Entry<V>>)
    requires StrictlySorted(r)
    requires forall x :: x in KeysOf(r) ==> e.key < x
    ensures StrictlySorted([e] + r)
  {
    var u := [e] + r;
    forall a, b | 0 <= a < b < |u| ensures u[a].key < u[b].key {
      KeyInKeysOf(r, b - 1);
      assert u[b] == r[b - 1];
      if a > 0 { assert u[a] == r[a - 1]; }
    }
  }

  lemma {:induction false} KeysOfAtMost<V>(s: seq<Entry<V>>, hi: int)
    requires forall j :: 0 <= j < |s| ==> s[j].key <= hi
    ensures forall x :: x in KeysOf(s) ==> x <= hi
  {
    if s != [] {
      KeysOfAtMost(s[1..], hi);
    }
  }

  lemma {:induction false} KeysOfAtLeast<V>(s: seq<Entry<V>>, lo: int)
    requires forall j :: 0 <= j < |s| ==> lo <= s[j].key
    ensures forall x :: x in KeysOf(s) ==> lo <= x
  {
    if s != [] {
      KeysOfAtLeast(s[1..], lo);
    }
  }

  /** A sorted list around one entry splits into two sorted lists bounded by that entry. */
  lemma SortedSplit<V>(a: seq<Entry<V>>, e: Entry<V>, b: seq<Entry<V>>)
    requires Sorted(a + [e] + b)
    ensures Sorted(a) && Sorted(b)
    ensures forall i :: 0 <= i < |a| ==> a[i].key <= e.key
    ensures forall i :: 0 <= i < |b| ==> e.key <= b[i].key
  {
    var u := a + [e] + b;
    assert forall i :: 0 <= i < |a| ==> u[i] == a[i];
    assert u[|a|] == e;
    assert forall i :: 0 <= i < |b| ==> u[|a| + 1 + i] == b[i];
    forall i, j | 0 <= i < j < |b| ensures b[i].key <= b[j].key {
      assert u[|a| + 1 + i].key <= u[|a| + 1 + j].key;
    }
    forall i | 0 <= i < |b| ensures e.key <= b[i].key {
      assert u[|a|].key <= u[|a| + 1 + i].key;
    }
  }

  lemma StrictlySortedSplit<V>(a: seq<Entry<V>>, e: Entry<V>, b: seq<Entry<V>>)
    requires StrictlySorted(a + [e] + b)
    ensures StrictlySorted(a) && StrictlySorted(b)
    ensures forall i :: 0 <= i < |a| ==> a[i].key < e.key
    ensures forall i :: 0 <= i < |b| ==> e.key < b[i].key
  {
    var u := a + [e] + b;
    assert forall i :: 0 <= i < |a| ==> u[i] == a[i];
    assert u[|a|] == e;
    assert forall i :: 0 <= i < |b| ==> u[|a| + 1 + i] == b[i];
    forall i, j | 0 <= i < j < |b| ensures b[i].key < b[j].key {
      assert u[|a| + 1 + i].key < u[|a| + 1 + j].key;
    }
    forall i | 0 <= i < |b| ensures e.key < b[i].key {
      assert u[|a|].key < u[|a| + 1 + i].key;
    }
  }

  /** Two sorted lists joined around an entry that separates them form a sorted list. */
  lemma SortedJoin<V>(a: seq<Entry<V>>, e: Entry<V>, b: seq<Entry<V>>)
    requires Sorted(a) && Sorted(b)
    requires forall i :: 0 <= i < |a| ==> a[i].key <= e.key
    requires forall i :: 0 <= i < |b| ==> e.key <= b[i].key
    ensures Sorted(a + [e] + b)
  {
    SortedConcat(a, [e]);
    forall x, y | 0 <= x < |a + [e]| && 0 <= y < |b| ensures (a + [e])[x].key <= b[y].key {
      if x < |a| { assert (a + [e])[x] == a[x]; }
    }
    SortedConcat(a + [e], b);
  }

  /** Removal around one entry, when the key lies only to its left. */
  lemma RemoveFirstKeyLeft<V>(a: seq<Entry<V>>, e: Entry<V>, b: seq<Entry<V>>, key: int)
    requires key != e.key && key !in KeysOf(b)
    ensures RemoveFirstKey(a + [e] + b, key) == RemoveFirstKey(a, key) + [e] + b
  {
    assert a + [e] + b == a + ([e] + b);
    RemoveFirstKeyAppend(a, [e] + b, key);
    if key !in KeysOf(a) {
      calc {
        RemoveFirstKey(a + ([e] + b), key);
        a + RemoveFirstKey([e] + b, key);
        { assert ([e] + b)[1..] == b; }
        a + ([e] + RemoveFirstKey(b, key));
        { RemoveFirstKeyAbsent(b, key); }
        a + ([e] + b);
        { RemoveFirstKeyAbsent(a, key); }
        RemoveFirstKey(a, key) + [e] + b;
      }
    }
  }

  /** Removal around one entry, when the key lies only to its right. */
  lemma RemoveFirstKeyRight<V>(a: seq<Entry<V>>, e: Entry<V>, b: seq<Entry<V>>, key: int)
    requires key != e.key && key !in KeysOf(a)
    ensures RemoveFirstKey(a + [e] + b, key) == a + [e] + RemoveFirstKey(b, key)
  {
    KeysOfAppend(a, [e]);
    assert [e][1..] == [];
    RemoveFirstKeyAppend(a + [e], b, key);
  }

  /**
   * Removing `e` from `a + [e] + b` is the same as overwriting `e` with the
   * first entry of `b` and removing that entry's key from `b`.
   */
  lemma RemoveFirstKeyReplaced<V>(a: seq<Entry<V>>, e: Entry<V>, b: seq<Entry<V>>)
    requires e.key !in KeysOf(a) && b != []
    ensures a + [b[0]] + RemoveFirstKey(b, b[0].key) == RemoveFirstKey(a + [e] + b, e.key)
  {
    calc {
      a + [b[0]] + RemoveFirstKey(b, b[0].key);
      a + [b[0]] + b[1..];
      a + ([b[0]] + b[1..]);
      { assert [b[0]] + b[1..] == b; }
      a + b;
      { RemoveFirstKeyAt(a, e, b); }
      RemoveFirstKey(a + [e] + b, e.key);
    }
  }

  /** Removal of the entry itself, when its key does not occur before it. */
  lemma RemoveFirstKeyAt<V>(a: seq<Entry<V>>, e: Entry<V>, b: seq<Entry<V>>)
    requires e.key !in KeysOf(a)
    ensures RemoveFirstKey(a + [e] + b, e.key) == a + b
  {
    assert a + [e] + b == a + ([e] + b);
    RemoveFirstKeyAppend(a, [e] + b, e.key);
    assert ([e] + b)[1..] == b;
  }

  /** Removal of an entry sitting in the middle of a list, when its key occurs nowhere before it. */
  lemma RemoveFirstKeyWithin<V>(pre: seq<Entry<V>>, a: seq<Entry<V>>, e: Entry<V>, b: seq<Entry<V>>, post: seq<Entry<V>>)
    requires e.key !in KeysOf(pre) && e.key !in KeysOf(a)
    ensures RemoveFirstKey(pre + (a + [e] + b) + post, e.key) == pre + (a + b) + post
  {
    var mid := a + [e] + b;
    RemoveFirstKeyAt(a, e, b);
    KeysOfAppend(a, [e]);
    KeysOfAppend(a + [e], b);
    assert e.key in KeysOf(mid);
    RemoveFirstKeyAppend(mid, post, e.key);
    RemoveFirstKeyAppend(pre, mid + post, e.key);
    assert pre + mid + post == pre + (mid + post);
    assert pre + (a + b) + post == pre + ((a + b) + post);
  }
}
