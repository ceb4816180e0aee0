/** Runs of adds: what the directory and the blocks can be after adding items one by one. */
module IndexRun {
  import opened Order
  import opened IndexOrder

  const MIN_ITEMS_PER_BLOCK := 4

  type Compare<!K> = (KeyItem<K>, KeyItem<K>) -> int

  /** The directory and, for each of its entries, the items of that entry's block. */
  datatype State<K> = State(dir: seq<KeyItem<K>>, lists: seq<seq<KeyItem<K>>>)

  /** Going through the directory, x is first above, then level with, then below the entries. */
  ghost predicate SignsOrdered<K>(cmp: Compare<K>, dir: seq<KeyItem<K>>, x: KeyItem<K>) {
    forall i, j :: 0 <= i < j < |dir| ==>
      (cmp(x, dir[i]) <= 0 ==> cmp(x, dir[j]) <= 0) && (cmp(x, dir[i]) < 0 ==> cmp(x, dir[j]) < 0)
  }

  /** What the search of the directory may answer for x, which is not below the first entry; it compares x alone. */
  ghost predicate Answer<K>(cmp: Compare<K>, dir: seq<KeyItem<K>>, x: KeyItem<K>, i: int) {
    && 0 <= i < |dir|
    && (SignsOrdered(cmp, dir, x) ==> cmp(x, dir[i]) >= 0 && (i < |dir| - 1 ==> cmp(x, dir[i + 1]) <= 0))
  }

  /** The directory after the block of entry i has taken an item and, when overfull, been split. */
  ghost function SettledDir<K>(max: int, dir: seq<KeyItem<K>>, lists: seq<seq<KeyItem<K>>>, i: int): seq<KeyItem<K>>
    requires 0 <= i < |dir| == |lists|
  {
    if |lists[i]| <= max || |lists[i]| < 2 then dir
    else SplitDir(dir, i, KeyItem(|dir| + 1, lists[i][|lists[i]| - |lists[i]| / 2].key))
  }

  ghost function SettledLists<K>(max: int, lists: seq<seq<KeyItem<K>>>, i: int): seq<seq<KeyItem<K>>>
    requires 0 <= i < |lists|
  {
    var h := |lists[i]| - |lists[i]| / 2;
    if |lists[i]| <= max || |lists[i]| < 2 then lists
    else SplitLists(lists, i, lists[i][..h], lists[i][h..])
  }

  /** The directory with its first key refreshed when x is below it. */
  ghost function RefreshedDir<K>(cmp: Compare<K>, refresh: (K, K) -> K, dir: seq<KeyItem<K>>,
    x: KeyItem<K>): (d: seq<KeyItem<K>>)
    requires dir != []
    ensures |d| == |dir|
  {
    if cmp(x, dir[0]) < 0 then dir[0 := KeyItem(dir[0].item, refresh(dir[0].key, x.key))] else dir
  }

  /** One add that puts x at place k of the block of entry i. */
  ghost predicate AddedAt<K>(cmp: Compare<K>, refresh: (K, K) -> K, max: int, s: State<K>, x: KeyItem<K>, t: State<K>,
    i: int, k: int)
  {
    && 0 <= i < |s.dir| == |s.lists| && PlaceOf(cmp, s.lists[i], x, k)
    && (if cmp(x, s.dir[0]) < 0 then i == 0 else Answer(cmp, s.dir, x, i))
    && t.dir == SettledDir(max, RefreshedDir(cmp, refresh, s.dir, x), s.lists[i := Inserted(s.lists[i], k, x)], i)
    && t.lists == SettledLists(max, s.lists[i := Inserted(s.lists[i], k, x)], i)
  }

  /** One add. */
  ghost predicate Added<K>(cmp: Compare<K>, refresh: (K, K) -> K, max: int, s: State<K>, x: KeyItem<K>, t: State<K>) {
    if s.dir == [] then t == State([KeyItem(1, x.key)], [[x]])
    else exists i, k :: AddedAt(cmp, refresh, max, s, x, t, i, k)
  }

  /** The state can be the outcome of adding the items xs, first to last. */
  ghost predicate Run<K(!new)>(cmp: Compare<K>, refresh: (K, K) -> K, max: int, xs: seq<KeyItem<K>>, t: State<K>)
    decreases |xs|
  {
    if xs == [] then t == State([], [])
    else exists s :: Run(cmp, refresh, max, Front(xs), s) && Added(cmp, refresh, max, s, Back(xs), t)
  }

  function Front<T>(xs: seq<T>): seq<T>
    requires xs != []
  {
    xs[..|xs| - 1]
  }

  function Back<T>(xs: seq<T>): T
    requires xs != []
  {
    xs[|xs| - 1]
  }

  /** One block number for each entry, from 1 to the number of entries. */
  ghost predicate Numbered<K>(dir: seq<KeyItem<K>>) {
    && (forall i :: 0 <= i < |dir| ==> 1 <= dir[i].item <= |dir|)
    && (forall i, j :: 0 <= i < j < |dir| ==> dir[i].item != dir[j].item)
  }

  /** What holds after any adds whatever the keys. */
  ghost predicate Shape<K>(cmp: Compare<K>, max: int, s: State<K>) {
    |s.dir| == |s.lists| && Numbered(s.dir) && Sized(s.lists, max) && BlocksSorted(cmp, s.lists)
  }

  lemma SplitNumbered<K>(dir: seq<KeyItem<K>>, i: int, e: KeyItem<K>)
    requires Numbered(dir) && 0 <= i < |dir| && e.item == |dir| + 1
    ensures Numbered(SplitDir(dir, i, e))
  {
    var d := SplitDir(dir, i, e);
    forall a, b | 0 <= a < b < |d| ensures d[a].item != d[b].item {
      assert a != i + 1 ==> d[a] == dir[if a <= i then a else a - 1];
      assert b != i + 1 ==> d[b] == dir[if b <= i then b else b - 1];
    }
  }

  lemma SplitSized<K>(lists: seq<seq<KeyItem<K>>>, l: seq<seq<KeyItem<K>>>, i: int, max: int)
    requires Sized(lists, max) && 0 <= i < |lists| == |l| && max >= 2
    requires l == lists[i := l[i]] && |l[i]| == |lists[i]| + 1
    ensures Sized(SettledLists(max, l, i), max)
  {
    var s := SettledLists(max, l, i);
    forall a | 0 <= a < |s| ensures 1 <= |s[a]| <= max && (|s| > 1 ==> (max + 1) / 2 <= |s[a]|) {
      if |l[i]| <= max {
        assert a != i ==> s[a] == lists[a];
      } else {
        assert a < i ==> s[a] == lists[a];
        assert a > i + 1 ==> s[a] == lists[a - 1];
      }
    }
  }

  /** Every add keeps the shape and adds exactly the one item. */
  lemma AddedShape<K(!new)>(cmp: Compare<K>, refresh: (K, K) -> K, max: int, s: State<K>, x: KeyItem<K>, t: State<K>)
    requires max >= 2 && Shape(cmp, max, s) && Added(cmp, refresh, max, s, x, t)
    ensures Shape(cmp, max, t) && t.dir != []
    ensures multiset(Flatten(t.lists)) == multiset(Flatten(s.lists)) + multiset{x}
  {
    if s.dir == [] {
      FirstAdd(cmp, x, max);
      assert s.lists == [];
      return;
    }
    var i, k :| AddedAt(cmp, refresh, max, s, x, t, i, k);
    AddedLists(cmp, max, s.lists, x, i, k);
    AddedDir(cmp, refresh, max, s, x, i, k);
    hide Sized, BlocksSorted, Flatten, SettledDir, SettledLists, RefreshedDir, Numbered, PlaceOf, Inserted;
  }

  lemma FirstAdd<K(!new)>(cmp: Compare<K>, x: KeyItem<K>, max: int)
    requires max >= 1
    ensures Sized([[x]], max) && BlocksSorted(cmp, [[x]]) && Flatten([[x]]) == [x] && Flatten<KeyItem<K>>([]) == []
  {
    FlattenSnoc([], [x]);
    assert [] + [[x]] == [[x]];
  }

  lemma AddedDir<K(!new)>(cmp: Compare<K>, refresh: (K, K) -> K, max: int, s: State<K>, x: KeyItem<K>, i: int, k: int)
    requires Numbered(s.dir) && 0 <= i < |s.dir| == |s.lists| && PlaceOf(cmp, s.lists[i], x, k)
    ensures var l := s.lists[i := Inserted(s.lists[i], k, x)]; var d := RefreshedDir(cmp, refresh, s.dir, x);
      Numbered(SettledDir(max, d, l, i)) && |SettledDir(max, d, l, i)| == |SettledLists(max, l, i)|
  {
    RefreshedNumbered(cmp, refresh, s.dir, x);
    hide PlaceOf, Inserted, RefreshedDir, Numbered;
    SettledNumbered(max, RefreshedDir(cmp, refresh, s.dir, x), s.lists[i := Inserted(s.lists[i], k, x)], i);
  }

  lemma RefreshedNumbered<K>(cmp: Compare<K>, refresh: (K, K) -> K, dir: seq<KeyItem<K>>, x: KeyItem<K>)
    requires Numbered(dir) && dir != []
    ensures Numbered(RefreshedDir(cmp, refresh, dir, x))
  {
    var d := RefreshedDir(cmp, refresh, dir, x);
    assert forall j :: 0 <= j < |d| ==> d[j].item == dir[j].item;
  }

  lemma SettledNumbered<K>(max: int, d: seq<KeyItem<K>>, l: seq<seq<KeyItem<K>>>, i: int)
    requires Numbered(d) && 0 <= i < |d| == |l|
    ensures Numbered(SettledDir(max, d, l, i)) && |SettledDir(max, d, l, i)| == |SettledLists(max, l, i)|
  {
    hide Numbered;
    if |l[i]| > max && |l[i]| >= 2 {
      var mid: KeyItem<K> := l[i][|l[i]| - |l[i]| / 2];
      SplitNumbered(d, i, KeyItem(|d| + 1, mid.key));
    }
  }

  lemma AddedLists<K(!new)>(cmp: Compare<K>, max: int, lists: seq<seq<KeyItem<K>>>, x: KeyItem<K>, i: int, k: int)
    requires max >= 2 && Sized(lists, max) && BlocksSorted(cmp, lists)
    requires 0 <= i < |lists| && PlaceOf(cmp, lists[i], x, k)
    ensures var l := SettledLists(max, lists[i := Inserted(lists[i], k, x)], i);
      Sized(l, max) && BlocksSorted(cmp, l) && multiset(Flatten(l)) == multiset(Flatten(lists)) + multiset{x}
  {
    var l := lists[i := Inserted(lists[i], k, x)];
    SplitSized(lists, l, i, max);
    InsertBlocksSorted(cmp, lists, x, i, k);
    var p := InsertFlatten(lists, i, k, x);
    SettledSame(cmp, max, l, i);
    hide Sized, Flatten, PlaceOf, BlocksSorted, Inserted, SettledLists;
  }

  lemma InsertBlocksSorted<K(!new)>(cmp: Compare<K>, lists: seq<seq<KeyItem<K>>>, x: KeyItem<K>, i: int, k: int)
    requires BlocksSorted(cmp, lists) && 0 <= i < |lists| && PlaceOf(cmp, lists[i], x, k)
    ensures BlocksSorted(cmp, lists[i := Inserted(lists[i], k, x)])
  {
    InsertedSorted(cmp, lists[i], k, x);
    hide PlaceOf, Sorted, Inserted;
  }

  /** A split keeps the blocks sorted and the items as they were. */
  lemma SettledSame<K(!new)>(cmp: Compare<K>, max: int, l: seq<seq<KeyItem<K>>>, i: int)
    requires BlocksSorted(cmp, l) && 0 <= i < |l|
    ensures BlocksSorted(cmp, SettledLists(max, l, i)) && Flatten(SettledLists(max, l, i)) == Flatten(l)
  {
    hide BlocksSorted, Flatten;
    var h := |l[i]| - |l[i]| / 2;
    if |l[i]| > max && |l[i]| >= 2 {
      assert l[i][..h] + l[i][h..] == l[i];
      SplitBlocksSorted(cmp, l, i, l[i][..h], l[i][h..]);
      SplitFlatten(l, i, l[i][..h], l[i][h..]);
    }
  }

  /** The directory with its first entry replaced by what it stands for. */
  function Fenced<K>(dir: seq<KeyItem<K>>, v: KeyItem<K>): (d: seq<KeyItem<K>>)
    ensures |d| == |dir|
  {
    if dir == [] then dir else dir[0 := v]
  }

  /** The blocks are in order, the first entry of the directory standing for v. */
  ghost predicate InOrder<K(!new)>(cmp: Compare<K>, good: K -> bool, s: State<K>, v: KeyItem<K>) {
    Ordered(cmp, Fenced(s.dir, v), s.lists) && (s.dir != [] ==> Shadow(cmp, good, s.dir[0], v))
  }

  /** The blocks are in order, whatever the first entry of the directory stands for. */
  ghost predicate SomeOrder<K(!new)>(cmp: Compare<K>, good: K -> bool, s: State<K>) {
    if s.dir == [] then s.lists == [] else exists v :: InOrder(cmp, good, s, v)
  }

  /** An add of a good key keeps the blocks in order, if refreshing with good keys is harmless. */
  lemma AddedOrdered<K(!new)>(cmp: Compare<K>, refresh: (K, K) -> K, good: K -> bool, max: int, s: State<K>,
    x: KeyItem<K>, t: State<K>)
    requires TotalPreorder(cmp) && KeyOnly(cmp) && Harmless(cmp, refresh, good) && good(x.key)
    requires SomeOrder(cmp, good, s) && Added(cmp, refresh, max, s, x, t)
    ensures t.dir != [] && SomeOrder(cmp, good, t)
  {
    hide TotalPreorder, Ordered, KeyOnly, Harmless, Shadow, SettledDir, SettledLists, RefreshedDir, Inserted, Answer;
    if s.dir == [] {
      var w := KeyItem(1, x.key);
      FirstOrdered(cmp, x);
      ShadowSelf(cmp, good, w);
      assert Fenced(t.dir, w) == t.dir;
      assert InOrder(cmp, good, t, w);
    } else {
      var v :| InOrder(cmp, good, s, v);
      var i, k :| AddedAt(cmp, refresh, max, s, x, t, i, k);
      var w := FitsBlock(cmp, refresh, good, s, v, x, i);
      var d := RefreshedDir(cmp, refresh, s.dir, x);
      StepOrdered(cmp, max, Fenced(d, w), s.lists, x, i, k);
      SettledFirst(max, d, s.lists[i := Inserted(s.lists[i], k, x)], i, w);
      assert InOrder(cmp, good, t, w);
    }
  }

  lemma ShadowSelf<K(!new)>(cmp: Compare<K>, good: K -> bool, e: KeyItem<K>)
    ensures Shadow(cmp, good, e, e)
  {
  }

  lemma FirstOrdered<K(!new)>(cmp: Compare<K>, x: KeyItem<K>)
    requires TotalPreorder(cmp) && KeyOnly(cmp)
    ensures Ordered(cmp, [KeyItem(1, x.key)], [[x]])
  {
    Flip(cmp, x, x);
    assert cmp(KeyItem(1, x.key), x) == cmp(x, x);
  }

  /** A split leaves the first entry alone. */
  lemma SettledFirst<K>(max: int, d: seq<KeyItem<K>>, l: seq<seq<KeyItem<K>>>, i: int, w: KeyItem<K>)
    requires 0 <= i < |d| == |l|
    ensures SettledDir(max, d, l, i) != [] && SettledDir(max, d, l, i)[0] == d[0]
    ensures SettledDir(max, Fenced(d, w), l, i) == Fenced(SettledDir(max, d, l, i), w)
  {
  }

  lemma StepOrdered<K(!new)>(cmp: Compare<K>, max: int, d: seq<KeyItem<K>>, lists: seq<seq<KeyItem<K>>>, x: KeyItem<K>,
    i: int, k: int)
    requires TotalPreorder(cmp) && KeyOnly(cmp) && Ordered(cmp, d, lists)
    requires 0 <= i < |d| == |lists| && PlaceOf(cmp, lists[i], x, k)
    requires cmp(d[i], x) <= 0 && (i < |d| - 1 ==> cmp(x, d[i + 1]) <= 0)
    ensures var l := lists[i := Inserted(lists[i], k, x)];
      Ordered(cmp, SettledDir(max, d, l, i), SettledLists(max, l, i))
  {
    InsertOrdered(cmp, d, lists, i, k, x);
    hide TotalPreorder, Ordered, KeyOnly, Inserted, SettledDir, SettledLists;
    SettledOrdered(cmp, max, d, lists[i := Inserted(lists[i], k, x)], i);
  }

  lemma SettledOrdered<K(!new)>(cmp: Compare<K>, max: int, d: seq<KeyItem<K>>, l: seq<seq<KeyItem<K>>>, i: int)
    requires TotalPreorder(cmp) && KeyOnly(cmp) && Ordered(cmp, d, l) && 0 <= i < |d| == |l|
    ensures Ordered(cmp, SettledDir(max, d, l, i), SettledLists(max, l, i))
  {
    hide TotalPreorder, Ordered, KeyOnly;
    var h := |l[i]| - |l[i]| / 2;
    if |l[i]| > max && |l[i]| >= 2 {
      assert l[i][..h] + l[i][h..] == l[i];
      var mid: KeyItem<K> := l[i][h];
      SplitOrdered(cmp, d, l, i, l[i][..h], l[i][h..], KeyItem(|d| + 1, mid.key));
    }
  }

  /** A directory over ordered blocks is sorted. */
  lemma {:induction false} DirSorted<K(!new)>(cmp: Compare<K>, dir: seq<KeyItem<K>>, lists: seq<seq<KeyItem<K>>>,
    i: int, j: int)
    requires TotalPreorder(cmp) && Ordered(cmp, dir, lists) && 0 <= i < j < |dir|
    ensures cmp(dir[i], dir[j]) <= 0
    decreases j
  {
    DirStep(cmp, dir, lists, j - 1);
    hide TotalPreorder, Ordered;
    if i < j - 1 {
      DirSorted(cmp, dir, lists, i, j - 1);
      Trans(cmp, dir[i], dir[j - 1], dir[j]);
    }
  }

  /**
   An item not below the first entry is compared in order with the directory, although that entry may be out of
   place.
   */
  lemma SignsFit<K(!new)>(cmp: Compare<K>, good: K -> bool, s: State<K>, v: KeyItem<K>, x: KeyItem<K>)
    requires TotalPreorder(cmp) && InOrder(cmp, good, s, v) && s.dir != [] && good(x.key) && cmp(x, s.dir[0]) >= 0
    ensures SignsOrdered(cmp, s.dir, x) && cmp(v, x) <= 0
  {
    hide TotalPreorder, Ordered;
    var d := Fenced(s.dir, v);
    Flip(cmp, v, x);
    Flip(cmp, x, v);
    forall i, j | 0 <= i < j < |d|
      ensures (cmp(x, s.dir[i]) <= 0 ==> cmp(x, s.dir[j]) <= 0) && (cmp(x, s.dir[i]) < 0 ==> cmp(x, s.dir[j]) < 0)
    {
      DirSorted(cmp, d, s.lists, i, j);
      if cmp(x, s.dir[i]) <= 0 {
        Trans(cmp, x, d[i], d[j]);
      }
      if i > 0 && cmp(x, s.dir[i]) < 0 {
        StrictTrans(cmp, x, d[i], d[j]);
      }
    }
  }

  /** The block chosen for x has directory keys around x, the first entry being taken for what it stands for. */
  lemma FitsBlock<K(!new)>(cmp: Compare<K>, refresh: (K, K) -> K, good: K -> bool, s: State<K>, v: KeyItem<K>,
    x: KeyItem<K>, i: int) returns (w: KeyItem<K>)
    requires TotalPreorder(cmp) && Harmless(cmp, refresh, good) && InOrder(cmp, good, s, v) && s.dir != []
    requires good(x.key)
    requires if cmp(x, s.dir[0]) < 0 then i == 0 else Answer(cmp, s.dir, x, i)
    ensures 0 <= i < |s.dir| && Ordered(cmp, Fenced(RefreshedDir(cmp, refresh, s.dir, x), w), s.lists)
    ensures Shadow(cmp, good, RefreshedDir(cmp, refresh, s.dir, x)[0], w)
    ensures cmp(Fenced(RefreshedDir(cmp, refresh, s.dir, x), w)[i], x) <= 0
    ensures i < |s.dir| - 1 ==> cmp(x, Fenced(RefreshedDir(cmp, refresh, s.dir, x), w)[i + 1]) <= 0
  {
    hide TotalPreorder, Ordered, Shadow, Harmless, InOrder, SignsOrdered;
    if cmp(x, s.dir[0]) < 0 {
      w := x;
      HarmlessAt(cmp, refresh, good, s.dir[0], x);
      BelowFence(cmp, good, s, v, x);
      assert Fenced(RefreshedDir(cmp, refresh, s.dir, x), x) == Fenced(s.dir, x);
    } else {
      w := v;
      Unfold(cmp, good, s, v);
      SignsFit(cmp, good, s, v, x);
      Flip(cmp, s.dir[i], x);
      Flip(cmp, x, s.dir[i]);
    }
  }

  lemma HarmlessAt<K(!new)>(cmp: Compare<K>, refresh: (K, K) -> K, good: K -> bool, e: KeyItem<K>, x: KeyItem<K>)
    requires Harmless(cmp, refresh, good) && good(x.key)
    ensures Shadow(cmp, good, KeyItem(e.item, refresh(e.key, x.key)), x)
  {
  }

  lemma Unfold<K(!new)>(cmp: Compare<K>, good: K -> bool, s: State<K>, v: KeyItem<K>)
    requires InOrder(cmp, good, s, v)
    ensures Ordered(cmp, Fenced(s.dir, v), s.lists) && (s.dir != [] ==> Shadow(cmp, good, s.dir[0], v))
  {
  }

  /** An item below the first entry goes to the first block and can fence it. */
  lemma BelowFence<K(!new)>(cmp: Compare<K>, good: K -> bool, s: State<K>, v: KeyItem<K>, x: KeyItem<K>)
    requires TotalPreorder(cmp) && InOrder(cmp, good, s, v) && s.dir != [] && good(x.key) && cmp(x, s.dir[0]) < 0
    ensures Ordered(cmp, Fenced(s.dir, x), s.lists) && cmp(x, x) <= 0 && (|s.dir| > 1 ==> cmp(x, s.dir[1]) <= 0)
  {
    var d := Fenced(s.dir, v);
    assert cmp(x, v) <= 0;
    RefreshOrdered(cmp, d, s.lists, x);
    assert d[0 := x] == Fenced(s.dir, x);
    hide TotalPreorder, Ordered;
    Flip(cmp, x, x);
    if |d| > 1 {
      DirSorted(cmp, d, s.lists, 0, 1);
      Trans(cmp, x, v, d[1]);
    }
  }

  /** After any adds: half-full blocks, distinct block numbers, sorted blocks, and exactly the items that were added. */
  lemma {:induction false} RunShape<K(!new)>(cmp: Compare<K>, refresh: (K, K) -> K, max: int, xs: seq<KeyItem<K>>,
    t: State<K>)
    requires max >= 2 && Run(cmp, refresh, max, xs, t)
    ensures Shape(cmp, max, t) && multiset(Flatten(t.lists)) == multiset(xs)
    ensures xs == [] <==> t.dir == []
    decreases |xs|
  {
    hide Added;
    if xs != [] {
      var s :| Run(cmp, refresh, max, Front(xs), s) && Added(cmp, refresh, max, s, Back(xs), t);
      RunShape(cmp, refresh, max, Front(xs), s);
      AddedShape(cmp, refresh, max, s, Back(xs), t);
      hide Shape, Run, Flatten;
      assert xs == Front(xs) + [Back(xs)];
    }
  }

  /** Only good keys were added, and refreshing with good keys is harmless. */
  ghost predicate SafeKeys<K(!new)>(cmp: Compare<K>, refresh: (K, K) -> K, good: K -> bool, xs: seq<KeyItem<K>>) {
    KeyOnly(cmp) && Harmless(cmp, refresh, good) && forall i :: 0 <= i < |xs| ==> good(xs[i].key)
  }

  /**
   After adds of good keys, refreshing with which is harmless, the items in directory order are in comparator order.
   */
  lemma {:induction false} RunOrdered<K(!new)>(cmp: Compare<K>, refresh: (K, K) -> K, good: K -> bool, max: int,
    xs: seq<KeyItem<K>>, t: State<K>)
    requires TotalPreorder(cmp) && SafeKeys(cmp, refresh, good, xs) && Run(cmp, refresh, max, xs, t)
    ensures SomeOrder(cmp, good, t) && Sorted(cmp, Flatten(t.lists))
    decreases |xs|
  {
    hide TotalPreorder, KeyOnly, Harmless, Added, Sorted, SomeOrder;
    if xs != [] {
      var s :| Run(cmp, refresh, max, Front(xs), s) && Added(cmp, refresh, max, s, Back(xs), t);
      RunOrdered(cmp, refresh, good, max, Front(xs), s);
      AddedOrdered(cmp, refresh, good, max, s, Back(xs), t);
      OrderSorted(cmp, good, t);
    } else {
      NoneSorted(cmp, good, t);
    }
  }

  lemma NoneSorted<K(!new)>(cmp: Compare<K>, good: K -> bool, t: State<K>)
    requires t == State([], [])
    ensures SomeOrder(cmp, good, t) && Sorted(cmp, Flatten(t.lists))
  {
  }

  lemma OrderSorted<K(!new)>(cmp: Compare<K>, good: K -> bool, t: State<K>)
    requires TotalPreorder(cmp) && SomeOrder(cmp, good, t) && t.dir != []
    ensures Sorted(cmp, Flatten(t.lists))
  {
    hide TotalPreorder, Ordered, Sorted, Shadow;
    var v :| InOrder(cmp, good, t, v);
    OrderedSizes(cmp, Fenced(t.dir, v), t.lists);
    FlattenSorted(cmp, Fenced(t.dir, v), t.lists, |t.lists|);
    assert t.lists[..|t.lists|] == t.lists;
  }

  lemma OrderedSizes<K>(cmp: Compare<K>, dir: seq<KeyItem<K>>, lists: seq<seq<KeyItem<K>>>)
    requires Ordered(cmp, dir, lists)
    ensures |dir| == |lists|
  {
  }

  /** Refreshing a good key with a good key gives a good key. */
  ghost predicate Closed<K(!new)>(refresh: (K, K) -> K, good: K -> bool) {
    forall w, x :: good(w) && good(x) ==> good(refresh(w, x))
  }

  /** Refreshing good keys gives the same either way. */
  ghost predicate Agree<K(!new)>(r: (K, K) -> K, r': (K, K) -> K, good: K -> bool) {
    forall w, x :: good(w) && good(x) ==> r(w, x) == r'(w, x)
  }

  lemma AddedFirst<K(!new)>(cmp: Compare<K>, refresh: (K, K) -> K, good: K -> bool, max: int, s: State<K>,
    x: KeyItem<K>, t: State<K>)
    requires Added(cmp, refresh, max, s, x, t) && Closed(refresh, good) && good(x.key)
    requires s.dir != [] ==> good(s.dir[0].key)
    ensures t.dir != [] && good(t.dir[0].key)
  {
    if s.dir != [] {
      var i, k :| AddedAt(cmp, refresh, max, s, x, t, i, k);
      var d, l := RefreshedDir(cmp, refresh, s.dir, x), s.lists[i := Inserted(s.lists[i], k, x)];
      assert good(d[0].key);
      SettledFirst(max, d, l, i, d[0]);
    }
  }

  /** After adds of good keys the first directory key is good. */
  lemma {:induction false} RunFirst<K(!new)>(cmp: Compare<K>, refresh: (K, K) -> K, good: K -> bool, max: int,
    xs: seq<KeyItem<K>>, t: State<K>)
    requires Run(cmp, refresh, max, xs, t) && Closed(refresh, good)
    requires forall i :: 0 <= i < |xs| ==> good(xs[i].key)
    ensures t.dir != [] ==> good(t.dir[0].key)
    decreases |xs|
  {
    hide Added, Closed;
    if xs != [] {
      var s :| Run(cmp, refresh, max, Front(xs), s) && Added(cmp, refresh, max, s, Back(xs), t);
      RunFirst(cmp, refresh, good, max, Front(xs), s);
      AddedFirst(cmp, refresh, good, max, s, Back(xs), t);
    }
  }

  lemma AddedSame<K(!new)>(cmp: Compare<K>, r: (K, K) -> K, r': (K, K) -> K, good: K -> bool, max: int, s: State<K>,
    x: KeyItem<K>, t: State<K>)
    requires Added(cmp, r, max, s, x, t) && Agree(r, r', good) && good(x.key)
    requires s.dir != [] ==> good(s.dir[0].key)
    ensures Added(cmp, r', max, s, x, t)
  {
    if s.dir != [] {
      var i, k :| AddedAt(cmp, r, max, s, x, t, i, k);
      assert RefreshedDir(cmp, r, s.dir, x) == RefreshedDir(cmp, r', s.dir, x);
      assert AddedAt(cmp, r', max, s, x, t, i, k);
    }
  }

  /** A run of good keys is a run with any refresh that gives the same on them. */
  lemma {:induction false} RunSame<K(!new)>(cmp: Compare<K>, r: (K, K) -> K, r': (K, K) -> K, good: K -> bool, max: int,
    xs: seq<KeyItem<K>>, t: State<K>)
    requires Run(cmp, r, max, xs, t) && Closed(r, good) && Agree(r, r', good)
    requires forall i :: 0 <= i < |xs| ==> good(xs[i].key)
    ensures Run(cmp, r', max, xs, t)
    decreases |xs|
  {
    hide Added, Closed, Agree;
    if xs != [] {
      var s :| Run(cmp, r, max, Front(xs), s) && Added(cmp, r, max, s, Back(xs), t);
      RunFirst(cmp, r, good, max, Front(xs), s);
      RunSame(cmp, r, r', good, max, Front(xs), s);
      AddedSame(cmp, r, r', good, max, s, Back(xs), t);
    }
  }
}
