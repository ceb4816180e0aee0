/** The order of an index: a directory of keys, one for each block, over the lists of items of the blocks. */
module IndexOrder {
  import opened Order

  /** An item number with its key; a directory entry is one whose item number is a block number. */
  datatype KeyItem<K> = KeyItem(item: int, key: K)

  /** The comparator looks at the keys alone. */
  ghost predicate KeyOnly<K(!new)>(cmp: (KeyItem<K>, KeyItem<K>) -> int) {
    forall x: KeyItem<K>, y: KeyItem<K>, u: KeyItem<K>, v: KeyItem<K> ::
      x.key == u.key && y.key == v.key ==> cmp(x, y) == cmp(u, v)
  }

  /**
   For the keys in question e stands where v does: whatever is not above e is not above v, and whatever is
   not below e is not below v.
   */
  ghost predicate Shadow<K(!new)>(cmp: (KeyItem<K>, KeyItem<K>) -> int, good: K -> bool, e: KeyItem<K>, v: KeyItem<K>) {
    forall y: KeyItem<K> :: good(y.key) ==>
      (cmp(y, e) <= 0 ==> cmp(y, v) <= 0) && (cmp(y, e) >= 0 ==> cmp(y, v) >= 0)
  }

  /** Whatever first directory key is refreshed with a key in question, the outcome stands for that key. */
  ghost predicate Harmless<K(!new)>(cmp: (KeyItem<K>, KeyItem<K>) -> int, refresh: (K, K) -> K, good: K -> bool) {
    forall e: KeyItem<K>, x: KeyItem<K> :: good(x.key) ==>
      Shadow(cmp, good, KeyItem(e.item, refresh(e.key, x.key)), x)
  }

  function Flatten<T>(lists: seq<seq<T>>): seq<T> {
    if lists == [] then [] else Flatten(lists[..|lists| - 1]) + lists[|lists| - 1]
  }

  lemma {:induction false} FlattenAppend<T>(a: seq<seq<T>>, b: seq<seq<T>>)
    ensures Flatten(a + b) == Flatten(a) + Flatten(b)
  {
    if b == [] {
      assert a + b == a;
    } else {
      var n := |b| - 1;
      assert (a + b)[..|a + b| - 1] == a + b[..n];
      FlattenAppend(a, b[..n]);
    }
  }

  lemma FlattenSnoc<T>(a: seq<seq<T>>, x: seq<T>)
    ensures Flatten(a + [x]) == Flatten(a) + x
  {
    assert (a + [x])[..|a|] == a;
  }

  /** The lists before the i-th, the i-th, and those after it. */
  lemma FlattenAt<T>(lists: seq<seq<T>>, i: int)
    requires 0 <= i < |lists|
    ensures Flatten(lists) == Flatten(lists[..i]) + lists[i] + Flatten(lists[i + 1..])
    ensures Flatten(lists[..i + 1]) == Flatten(lists[..i]) + lists[i]
  {
    hide Flatten;
    FlattenUpTo(lists, i);
    CutAt(lists, i + 1);
    FlattenAppend(lists[..i + 1], lists[i + 1..]);
  }

  lemma CutAt<T>(s: seq<T>, i: int)
    requires 0 <= i <= |s|
    ensures s == s[..i] + s[i..]
  {
  }

  lemma FlattenUpTo<T>(lists: seq<seq<T>>, i: int)
    requires 0 <= i < |lists|
    ensures Flatten(lists[..i + 1]) == Flatten(lists[..i]) + lists[i]
  {
    hide Flatten;
    assert lists[..i + 1] == lists[..i] + [lists[i]];
    FlattenSnoc(lists[..i], lists[i]);
  }

  /** Every block is sorted and not empty. */
  ghost predicate BlocksSorted<K>(cmp: (KeyItem<K>, KeyItem<K>) -> int, lists: seq<seq<KeyItem<K>>>) {
    forall i :: 0 <= i < |lists| ==> lists[i] != [] && Sorted(cmp, lists[i])
  }

  /** The items of block i lie between its own directory key and the next. */
  ghost predicate Ordered<K>(cmp: (KeyItem<K>, KeyItem<K>) -> int, dir: seq<KeyItem<K>>, lists: seq<seq<KeyItem<K>>>) {
    && |lists| == |dir| && BlocksSorted(cmp, lists)
    && (forall i, j :: 0 <= i < |dir| && 0 <= j < |lists[i]| ==> cmp(dir[i], lists[i][j]) <= 0)
    && (forall i, j :: 0 <= i < |dir| - 1 && 0 <= j < |lists[i]| ==> cmp(lists[i][j], dir[i + 1]) <= 0)
  }

  /** No block is empty or overfull, and with more than one block each is at least half full. */
  ghost predicate Sized<K>(lists: seq<seq<KeyItem<K>>>, max: int) {
    forall i :: 0 <= i < |lists| ==> 1 <= |lists[i]| <= max && (|lists| > 1 ==> (max + 1) / 2 <= |lists[i]|)
  }

  lemma DirStep<K(!new)>(cmp: (KeyItem<K>, KeyItem<K>) -> int, dir: seq<KeyItem<K>>, lists: seq<seq<KeyItem<K>>>,
    i: int)
    requires TotalPreorder(cmp) && Ordered(cmp, dir, lists) && 0 <= i < |dir| - 1
    ensures cmp(dir[i], dir[i + 1]) <= 0
  {
    hide TotalPreorder;
    Trans(cmp, dir[i], lists[i][0], dir[i + 1]);
  }

  /** Everything in the blocks before the i-th is at most the i-th directory key. */
  lemma {:induction false} BelowKey<K(!new)>(cmp: (KeyItem<K>, KeyItem<K>) -> int, dir: seq<KeyItem<K>>,
    lists: seq<seq<KeyItem<K>>>, i: int, p: int)
    requires TotalPreorder(cmp) && Ordered(cmp, dir, lists) && 0 < i < |dir| && 0 <= p < |Flatten(lists[..i])|
    ensures cmp(Flatten(lists[..i])[p], dir[i]) <= 0
  {
    hide TotalPreorder;
    assert lists[..i][..i - 1] == lists[..i - 1];
    var s := Flatten(lists[..i - 1]);
    assert Flatten(lists[..i]) == s + lists[i - 1];
    if p < |s| {
      BelowKey(cmp, dir, lists, i - 1, p);
      DirStep(cmp, dir, lists, i - 1);
      Trans(cmp, s[p], dir[i - 1], dir[i]);
    } else {
      assert cmp(lists[i - 1][p - |s|], dir[i - 1 + 1]) <= 0;
    }
  }

  /** The items of all blocks, in directory order, are sorted. */
  lemma {:induction false} FlattenSorted<K(!new)>(cmp: (KeyItem<K>, KeyItem<K>) -> int, dir: seq<KeyItem<K>>,
    lists: seq<seq<KeyItem<K>>>, i: int)
    requires TotalPreorder(cmp) && Ordered(cmp, dir, lists) && 0 <= i <= |dir|
    ensures Sorted(cmp, Flatten(lists[..i]))
    decreases i
  {
    hide TotalPreorder;
    if i > 0 {
      FlattenSorted(cmp, dir, lists, i - 1);
      assert lists[..i][..i - 1] == lists[..i - 1];
      var s, t := Flatten(lists[..i - 1]), lists[i - 1];
      forall p, q | 0 <= p < q < |s + t| ensures cmp((s + t)[p], (s + t)[q]) <= 0 {
        if p < |s| <= q {
          BelowKey(cmp, dir, lists, i - 1, p);
          Trans(cmp, s[p], dir[i - 1], t[q - |s|]);
        }
      }
    }
  }

  /** Where a new item goes in a sorted list: after the items that are not above it. */
  ghost predicate PlaceOf<T>(cmp: (T, T) -> int, s: seq<T>, x: T, k: int) {
    && 0 <= k <= |s|
    && (forall j :: 0 <= j < k ==> cmp(s[j], x) <= 0)
    && (forall j :: k <= j < |s| ==> cmp(x, s[j]) < 0)
  }

  function Inserted<T>(s: seq<T>, k: int, x: T): (t: seq<T>)
    requires 0 <= k <= |s|
    ensures |t| == |s| + 1
    ensures forall j :: 0 <= j < |t| ==> t[j] == if j < k then s[j] else if j == k then x else s[j - 1]
    ensures multiset(t) == multiset(s) + multiset{x}
  {
    assert s == s[..k] + s[k..];
    s[..k] + [x] + s[k..]
  }

  lemma InsertedSorted<T>(cmp: (T, T) -> int, s: seq<T>, k: int, x: T)
    requires Sorted(cmp, s) && PlaceOf(cmp, s, x, k)
    ensures Sorted(cmp, Inserted(s, k, x))
  {
    var t := Inserted(s, k, x);
    forall p, q | 0 <= p < q < |t| ensures cmp(t[p], t[q]) <= 0 {
      var p', q' := if p < k then p else p - 1, if q < k then q else q - 1;
      assert t[p] == (if p == k then x else s[p']) && t[q] == (if q == k then x else s[q']);
    }
  }

  /** Adding an item that fits between the directory keys of its block. */
  lemma InsertOrdered<K(!new)>(cmp: (KeyItem<K>, KeyItem<K>) -> int, dir: seq<KeyItem<K>>, lists: seq<seq<KeyItem<K>>>,
    i: int, k: int, x: KeyItem<K>)
    requires Ordered(cmp, dir, lists) && 0 <= i < |dir| && PlaceOf(cmp, lists[i], x, k)
    requires cmp(dir[i], x) <= 0 && (i < |dir| - 1 ==> cmp(x, dir[i + 1]) <= 0)
    ensures Ordered(cmp, dir, lists[i := Inserted(lists[i], k, x)])
  {
    InsertedSorted(cmp, lists[i], k, x);
    hide Inserted, Sorted, PlaceOf;
    var l := lists[i := Inserted(lists[i], k, x)];
    forall a, b | 0 <= a < |dir| && 0 <= b < |l[a]| ensures cmp(dir[a], l[a][b]) <= 0 {
      assert a == i && b > k ==> cmp(dir[a], lists[a][b - 1]) <= 0;
    }
    forall a, b | 0 <= a < |dir| - 1 && 0 <= b < |l[a]| ensures cmp(l[a][b], dir[a + 1]) <= 0 {
      assert a == i && b > k ==> cmp(lists[a][b - 1], dir[a + 1]) <= 0;
    }
  }

  /** In the list of all items the new one is inserted somewhere too. */
  lemma InsertFlatten<T>(lists: seq<seq<T>>, i: int, k: int, x: T) returns (p: int)
    requires 0 <= i < |lists| && 0 <= k <= |lists[i]|
    ensures 0 <= p <= |Flatten(lists)|
    ensures Flatten(lists[i := Inserted(lists[i], k, x)]) == Inserted(Flatten(lists), p, x)
  {
    hide Flatten;
    var l := lists[i := Inserted(lists[i], k, x)];
    FlattenAt(lists, i);
    FlattenAt(l, i);
    assert l[..i] == lists[..i] && l[i + 1..] == lists[i + 1..];
    p := |Flatten(lists[..i])| + k;
    InsertedInside(Flatten(lists[..i]), lists[i], Flatten(lists[i + 1..]), k, x);
  }

  lemma InsertedInside<T>(a: seq<T>, s: seq<T>, b: seq<T>, k: int, x: T)
    requires 0 <= k <= |s|
    ensures a + Inserted(s, k, x) + b == Inserted(a + s + b, |a| + k, x)
  {
    var t := a + s + b;
    assert t[..|a| + k] == a + s[..k] && t[|a| + k..] == s[k..] + b;
  }

  /** A lower first directory key keeps the order. */
  lemma RefreshOrdered<K(!new)>(cmp: (KeyItem<K>, KeyItem<K>) -> int, dir: seq<KeyItem<K>>, lists: seq<seq<KeyItem<K>>>,
    e: KeyItem<K>)
    requires TotalPreorder(cmp) && Ordered(cmp, dir, lists) && dir != [] && cmp(e, dir[0]) <= 0
    ensures Ordered(cmp, dir[0 := e], lists)
  {
    hide TotalPreorder, BlocksSorted;
    forall j | 0 <= j < |lists[0]| ensures cmp(e, lists[0][j]) <= 0 {
      Trans(cmp, e, dir[0], lists[0][j]);
    }
  }

  /** The directory and the lists after block i is split. */
  function SplitDir<K>(dir: seq<KeyItem<K>>, i: int, e: KeyItem<K>): seq<KeyItem<K>>
    requires 0 <= i < |dir|
  {
    dir[..i + 1] + [e] + dir[i + 1..]
  }

  function SplitLists<T>(lists: seq<seq<T>>, i: int, bottom: seq<T>, top: seq<T>): seq<seq<T>>
    requires 0 <= i < |lists|
  {
    lists[..i] + [bottom, top] + lists[i + 1..]
  }

  lemma SplitFlatten<T>(lists: seq<seq<T>>, i: int, bottom: seq<T>, top: seq<T>)
    requires 0 <= i < |lists| && bottom + top == lists[i]
    ensures Flatten(SplitLists(lists, i, bottom, top)) == Flatten(lists)
  {
    hide Flatten;
    FlattenAt(lists, i);
    FlattenAppend(lists[..i] + [bottom, top], lists[i + 1..]);
    FlattenSnoc(lists[..i], bottom);
    FlattenSnoc(lists[..i] + [bottom], top);
    assert lists[..i] + [bottom, top] == lists[..i] + [bottom] + [top];
  }

  /**
   Splitting a block between two of its items; the new directory key is the key of the first item of the upper half.
   */
  lemma SplitOrdered<K(!new)>(cmp: (KeyItem<K>, KeyItem<K>) -> int, dir: seq<KeyItem<K>>, lists: seq<seq<KeyItem<K>>>,
    i: int, bottom: seq<KeyItem<K>>, top: seq<KeyItem<K>>, e: KeyItem<K>)
    requires TotalPreorder(cmp) && KeyOnly(cmp) && Ordered(cmp, dir, lists) && 0 <= i < |dir|
    requires bottom + top == lists[i] && bottom != [] && top != [] && e.key == top[0].key
    ensures Ordered(cmp, SplitDir(dir, i, e), SplitLists(lists, i, bottom, top))
  {
    SplitBlocksSorted(cmp, lists, i, bottom, top);
    FirstIsLeast(cmp, lists[i], |bottom|, e);
    hide TotalPreorder, BlocksSorted, KeyOnly;
    SplitOwnKey(cmp, dir, lists, i, bottom, top, e);
    SplitNextKey(cmp, dir, lists, i, bottom, top, e);
  }

  lemma SplitOwnKey<K>(cmp: (KeyItem<K>, KeyItem<K>) -> int, dir: seq<KeyItem<K>>, lists: seq<seq<KeyItem<K>>>,
    i: int, bottom: seq<KeyItem<K>>, top: seq<KeyItem<K>>, e: KeyItem<K>)
    requires Ordered(cmp, dir, lists) && 0 <= i < |dir| && bottom + top == lists[i]
    requires forall j :: |bottom| <= j < |lists[i]| ==> cmp(e, lists[i][j]) <= 0
    ensures var d, l := SplitDir(dir, i, e), SplitLists(lists, i, bottom, top);
      forall a, b :: 0 <= a < |d| && 0 <= b < |l[a]| ==> cmp(d[a], l[a][b]) <= 0
  {
    hide BlocksSorted;
    var d, l := SplitDir(dir, i, e), SplitLists(lists, i, bottom, top);
    forall a, b | 0 <= a < |d| && 0 <= b < |l[a]| ensures cmp(d[a], l[a][b]) <= 0 {
      if a == i {
        assert lists[i][b] == bottom[b];
      } else if a == i + 1 {
        assert lists[i][|bottom| + b] == top[b];
      } else {
        var c := if a < i then a else a - 1;
        assert d[a] == dir[c] && l[a] == lists[c];
      }
    }
  }

  lemma SplitNextKey<K>(cmp: (KeyItem<K>, KeyItem<K>) -> int, dir: seq<KeyItem<K>>, lists: seq<seq<KeyItem<K>>>,
    i: int, bottom: seq<KeyItem<K>>, top: seq<KeyItem<K>>, e: KeyItem<K>)
    requires Ordered(cmp, dir, lists) && 0 <= i < |dir| && bottom + top == lists[i]
    requires forall j :: 0 <= j < |bottom| ==> cmp(lists[i][j], e) <= 0
    ensures var d, l := SplitDir(dir, i, e), SplitLists(lists, i, bottom, top);
      forall a, b :: 0 <= a < |d| - 1 && 0 <= b < |l[a]| ==> cmp(l[a][b], d[a + 1]) <= 0
  {
    hide BlocksSorted;
    var d, l := SplitDir(dir, i, e), SplitLists(lists, i, bottom, top);
    forall a, b | 0 <= a < |d| - 1 && 0 <= b < |l[a]| ensures cmp(l[a][b], d[a + 1]) <= 0 {
      if a == i {
        assert lists[i][b] == bottom[b];
      } else if a == i + 1 {
        assert lists[i][|bottom| + b] == top[b] && d[a + 1] == dir[i + 1];
      } else {
        var c := if a < i then a else a - 1;
        assert d[a + 1] == dir[c + 1] && l[a] == lists[c];
      }
    }
  }

  lemma SplitBlocksSorted<K(!new)>(cmp: (KeyItem<K>, KeyItem<K>) -> int, lists: seq<seq<KeyItem<K>>>, i: int,
    bottom: seq<KeyItem<K>>, top: seq<KeyItem<K>>)
    requires BlocksSorted(cmp, lists) && 0 <= i < |lists|
    requires bottom + top == lists[i] && bottom != [] && top != []
    ensures BlocksSorted(cmp, SplitLists(lists, i, bottom, top))
  {
    var l, s := SplitLists(lists, i, bottom, top), lists[i];
    assert forall j :: 0 <= j < |bottom| ==> bottom[j] == s[j];
    assert forall j :: 0 <= j < |top| ==> top[j] == s[|bottom| + j];
    assert Sorted(cmp, bottom) && Sorted(cmp, top);
    forall a | 0 <= a < |l| ensures l[a] != [] && Sorted(cmp, l[a]) {
      assert a < i ==> l[a] == lists[a];
      assert a > i + 1 ==> l[a] == lists[a - 1];
    }
  }

  /** The key of the k-th item of a sorted list divides the list. */
  lemma FirstIsLeast<K(!new)>(cmp: (KeyItem<K>, KeyItem<K>) -> int, s: seq<KeyItem<K>>, k: int, e: KeyItem<K>)
    requires TotalPreorder(cmp) && KeyOnly(cmp) && Sorted(cmp, s) && 0 <= k < |s| && e.key == s[k].key
    ensures forall j :: 0 <= j < k ==> cmp(s[j], e) <= 0
    ensures forall j :: k <= j < |s| ==> cmp(e, s[j]) <= 0
  {
    Flip(cmp, s[k], s[k]);
    forall j | 0 <= j < k ensures cmp(s[j], e) <= 0 {
      assert cmp(s[j], e) == cmp(s[j], s[k]);
    }
    forall j | k <= j < |s| ensures cmp(e, s[j]) <= 0 {
      assert cmp(e, s[j]) == cmp(s[k], s[j]);
    }
  }
}
