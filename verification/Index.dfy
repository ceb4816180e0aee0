/** An index over a block file: adding items and scanning them in both directions. */
module Index {
  import opened Order
  import opened IdxBlk
  import opened IndexOrder
  import opened IndexRun
  import opened KeySizes
  import opened Shell
  import opened Wrappers

  const SHELL_THRESHOLD := 250

  /** The items of each block of the directory. */
  ghost function Lists<K>(dir: seq<KeyItem<K>>, view: seq<Block<KeyItem<K>>>): (l: seq<seq<KeyItem<K>>>)
    ensures |l| == |dir|
  {
    seq(|dir|, i requires 0 <= i < |dir| => if 0 <= dir[i].item < |view| then view[dir[i].item].items else [])
  }

  /** The block number of entry i; 0 before the first and after the last. */
  ghost function NumberAt<K>(dir: seq<KeyItem<K>>, i: int): int {
    if 0 <= i < |dir| then dir[i].item else 0
  }

  /** The block of entry i has the blocks of its neighbours in the directory as its own. */
  ghost predicate LinkOk<K>(dir: seq<KeyItem<K>>, view: seq<Block<KeyItem<K>>>, i: int) {
    && 0 <= i < |dir| && 0 < dir[i].item < |view|
    && view[dir[i].item].prev == NumberAt(dir, i - 1) && view[dir[i].item].next == NumberAt(dir, i + 1)
  }

  /** The links of the blocks follow the directory. */
  ghost predicate Linked<K>(dir: seq<KeyItem<K>>, view: seq<Block<KeyItem<K>>>) {
    forall i :: 0 <= i < |dir| ==> LinkOk(dir, view, i)
  }

  lemma LinkedAt<K>(dir: seq<KeyItem<K>>, view: seq<Block<KeyItem<K>>>, i: int)
    requires Linked(dir, view) && 0 <= i < |dir|
    ensures 0 < dir[i].item < |view| && Lists(dir, view)[i] == view[dir[i].item].items
    ensures view[dir[i].item].prev == NumberAt(dir, i - 1) && view[dir[i].item].next == NumberAt(dir, i + 1)
  {
    assert LinkOk(dir, view, i);
  }

  /** A block takes another list of items. */
  lemma WriteLists<K>(dir: seq<KeyItem<K>>, view: seq<Block<KeyItem<K>>>, i: int, items: seq<KeyItem<K>>)
    requires Linked(dir, view) && Numbered(dir) && 0 <= i < |dir|
    ensures 0 < dir[i].item < |view|
    ensures Linked(dir, view[dir[i].item := view[dir[i].item].(items := items)])
    ensures Lists(dir, view[dir[i].item := view[dir[i].item].(items := items)]) == Lists(dir, view)[i := items]
  {
    LinkedAt(dir, view, i);
    hide Numbered, Linked;
    var v := view[dir[i].item := view[dir[i].item].(items := items)];
    forall j | 0 <= j < |dir| ensures LinkOk(dir, v, j) && Lists(dir, v)[j] == Lists(dir, view)[i := items][j] {
      NumbersDiffer(dir, i, j);
      LinkedAt(dir, view, j);
    }
    LinkedIntro(dir, v);
  }

  lemma NumbersDiffer<K>(dir: seq<KeyItem<K>>, i: int, j: int)
    requires Numbered(dir) && 0 <= i < |dir| && 0 <= j < |dir|
    ensures dir[i].item == dir[j].item ==> i == j
    ensures 1 <= dir[i].item <= |dir|
  {
    assert i < j || j < i || i == j;
  }

  /** Splitting block i: the other blocks keep their items, and their links follow the new directory. */
  lemma SplitOther<K>(dir: seq<KeyItem<K>>, view: seq<Block<KeyItem<K>>>, i: int, e: KeyItem<K>, a: int)
    requires Linked(dir, view) && Numbered(dir) && |view| == |dir| + 1 && 0 <= i < |dir| && e.item == |view|
    requires 0 < dir[i].item < |view| && 0 <= view[dir[i].item].next < |view| && view[dir[i].item].next != dir[i].item
    requires 0 <= a <= |dir| && a != i && a != i + 1
    ensures var j := if a < i then a else a - 1; var w := SplitView(view, dir[i].item);
      LinkOk(SplitDir(dir, i, e), w, a) && w[dir[j].item].items == view[dir[j].item].items
  {
    var j := if a < i then a else a - 1;
    NumbersDiffer(dir, i, j);
    if i + 1 < |dir| {
      NumbersDiffer(dir, i + 1, j);
    }
    hide Numbered;
    LinkedAt(dir, view, j);
    LinkedAt(dir, view, i);
    hide Linked;
    var d := SplitDir(dir, i, e);
    assert d[a] == dir[j] && NumberAt(d, a + 1) == NumberAt(dir, j + 1);
    assert NumberAt(d, a - 1) == if j == i + 1 then e.item else NumberAt(dir, j - 1);
  }

  /** The two halves share the items and are linked to each other and to the neighbours. */
  lemma SplitHalves<K>(dir: seq<KeyItem<K>>, view: seq<Block<KeyItem<K>>>, i: int, e: KeyItem<K>)
    requires Linked(dir, view) && Numbered(dir) && |view| == |dir| + 1 && 0 <= i < |dir| && e.item == |view|
    requires 0 < dir[i].item < |view| && 0 <= view[dir[i].item].next < |view| && view[dir[i].item].next != dir[i].item
    ensures var w := SplitView(view, dir[i].item); var s := view[dir[i].item].items; var h := |s| - |s| / 2;
      LinkOk(SplitDir(dir, i, e), w, i) && LinkOk(SplitDir(dir, i, e), w, i + 1)
        && w[dir[i].item].items == s[..h] && w[e.item].items == s[h..]
  {
    NumbersDiffer(dir, i, i);
    if i + 1 < |dir| {
      NumbersDiffer(dir, i, i + 1);
    }
    hide Numbered;
    LinkedAt(dir, view, i);
    hide Linked;
    var d := SplitDir(dir, i, e);
    assert d[i] == dir[i] && d[i + 1] == e && NumberAt(d, i + 2) == NumberAt(dir, i + 1);
  }

  lemma SplitAny<K>(dir: seq<KeyItem<K>>, view: seq<Block<KeyItem<K>>>, i: int, e: KeyItem<K>, a: int)
    requires Linked(dir, view) && Numbered(dir) && |view| == |dir| + 1 && 0 <= i < |dir| && e.item == |view|
    requires 0 < dir[i].item < |view| && 0 <= view[dir[i].item].next < |view| && view[dir[i].item].next != dir[i].item
    requires 0 <= a <= |dir|
    ensures LinkOk(SplitDir(dir, i, e), SplitView(view, dir[i].item), a)
    ensures var s := view[dir[i].item].items; var h := |s| - |s| / 2;
      SplitView(view, dir[i].item)[SplitDir(dir, i, e)[a].item].items ==
        SplitLists(Lists(dir, view), i, s[..h], s[h..])[a]
  {
    hide Linked, Numbered, SplitView;
    if a == i || a == i + 1 {
      SplitHalves(dir, view, i, e);
    } else {
      SplitOther(dir, view, i, e, a);
      var j := if a < i then a else a - 1;
      LinkedAt(dir, view, j);
      assert SplitDir(dir, i, e)[a] == dir[j];
    }
  }

  /** A split keeps the links following the directory and shares out the items. */
  lemma SplitLinked<K>(dir: seq<KeyItem<K>>, view: seq<Block<KeyItem<K>>>, i: int, e: KeyItem<K>,
    v: seq<Block<KeyItem<K>>>)
    requires Linked(dir, view) && Numbered(dir) && |view| == |dir| + 1 && 0 <= i < |dir| && e.item == |view|
    requires 0 < dir[i].item < |view| && 0 <= view[dir[i].item].next < |view| && view[dir[i].item].next != dir[i].item
    requires |v| == |view| + 1 && v[1..] == SplitView(view, dir[i].item)[1..]
    ensures Linked(SplitDir(dir, i, e), v)
    ensures var s := view[dir[i].item].items; var h := |s| - |s| / 2;
      Lists(SplitDir(dir, i, e), v) == SplitLists(Lists(dir, view), i, s[..h], s[h..])
  {
    hide SplitView, Linked, Numbered;
    var w, d := SplitView(view, dir[i].item), SplitDir(dir, i, e);
    var s := view[dir[i].item].items;
    var h := |s| - |s| / 2;
    var l := SplitLists(Lists(dir, view), i, s[..h], s[h..]);
    forall a | 0 <= a < |d| ensures LinkOk(d, v, a) && Lists(d, v)[a] == l[a] {
      SplitAny(dir, view, i, e, a);
      assert v[d[a].item] == v[1..][d[a].item - 1] == w[1..][d[a].item - 1] == w[d[a].item];
    }
    LinkedIntro(d, v);
    assert Lists(d, v) == l;
  }

  lemma LinkedIntro<K>(dir: seq<KeyItem<K>>, view: seq<Block<KeyItem<K>>>)
    requires forall i :: 0 <= i < |dir| ==> LinkOk(dir, view, i)
    ensures Linked(dir, view)
  {
  }

  /** If a block that was cached has changed, then nothing was written to disk and no dirty mark was set or cleared. */
  ghost predicate ChangedInCache<T>(view0: seq<Block<T>>, used0: seq<Slot<T>>, disk0: seq<Block<T>>,
    view: seq<Block<T>>, used: seq<Slot<T>>, disk: seq<Block<T>>)
  {
    forall b :: 0 < b < |view0| && b < |view| && view[b] != view0[b] && Cached(used0, b) ==>
      disk == disk0 && SameMarks(used0, used)
  }

  class DbIndex<K(!new)> {
    const cache: BlockCache<KeyItem<K>>
    const cmp: Compare<K>
    /** What the copy over the first directory key leaves there, from the old key and the new. */
    const refresh: (K, K) -> K
    const sizes: KeySizes
    var dir: seq<KeyItem<K>>
    /** The nodes over the directory, the comparisons of the last search, and how many searches were slow. */
    var nodes: seq<Node>
    var numCompares: int
    var thresh: int
    var numItems: int
    /** Whether the directory has been set up, which the first call of addIndexItem does. */
    var shell: bool
    var isSequential: bool
    /** The current block and the place of the current item in it. */
    var current: int
    var at: int
    ghost var added: seq<KeyItem<K>>
    /** The directory entry of the current block. */
    ghost var entry: int

    ghost function Stored(): State<K>
      reads this, cache
    {
      State(dir, Lists(dir, cache.view))
    }

    /** All items, block after block in directory order. */
    ghost function Items(): seq<KeyItem<K>>
      reads this, cache
    {
      Flatten(Lists(dir, cache.view))
    }

    /** The cache, the directory and the links agree. */
    ghost predicate Consistent()
      reads this, cache
    {
      && cache.Valid() && cache.full == -1 && cache.lastBlock + 1 == |cache.disk| == |cache.view|
      && TotalPreorder(cmp) && Linked(dir, cache.view) && (cache.control ==> |dir| <= 1) && Over(nodes, |dir|)
      && (if cache.maxItems >= MIN_ITEMS_PER_BLOCK then |cache.view| == |dir| + 1 else dir == [])
    }

    ghost predicate Valid()
      reads this, cache
    {
      && Consistent() && sizes.Valid() && cache.maxItems >= 1 && numItems == |added|
      && (dir != [] || isSequential ==> shell)
      && Run(cmp, refresh, cache.maxItems, added, Stored())
    }

    constructor (cmp: Compare<K>, refresh: (K, K) -> K, sizes: KeySizes, maxItems: int)
      requires TotalPreorder(cmp) && maxItems >= 1 && sizes.Valid()
      ensures Valid() && added == [] && dir == [] && fresh(cache) && cache.AllDirty() && !isSequential && !shell
      ensures this.cmp == cmp && this.refresh == refresh && this.sizes == sizes && cache.maxItems == maxItems
    {
      this.cmp, this.refresh, this.sizes := cmp, refresh, sizes;
      cache := new BlockCache(maxItems);
      dir, numItems, shell, isSequential, current, at := [], 0, false, false, 0, 0;
      nodes, numCompares, thresh := [], 0, 0;
      added := [];
    }

    /** Insert into a sorted list after the items that are not above the new one. */
    method InsertLink(items: seq<KeyItem<K>>, ki: KeyItem<K>) returns (r: seq<KeyItem<K>>, ghost k: int)
      requires TotalPreorder(cmp) && Sorted(cmp, items)
      ensures PlaceOf(cmp, items, ki, k) && r == Inserted(items, k, ki)
    {
      hide TotalPreorder;
      var n := |items|;
      if n == 0 {
        return [ki], 0;
      }
      if cmp(ki, items[0]) < 0 {
        BelowAll(cmp, items, ki, 0);
        return [ki] + items, 0;
      }
      if cmp(ki, items[n - 1]) > 0 {
        AboveAll(cmp, items, ki, n);
        return items + [ki], n;
      }
      var link := 0;
      while link < n
        invariant 0 <= link <= n
        invariant forall j :: 0 <= j < link ==> cmp(items[j], ki) <= 0
      {
        if cmp(ki, items[link]) < 0 {
          BelowAll(cmp, items, ki, link);
          return items[..link] + [ki] + items[link..], link;
        }
        Flip(cmp, items[link], ki);
        Flip(cmp, ki, items[link]);
        link := link + 1;
      }
      return items + [ki], n;
    }

    /** Load the block of entry i and insert the item into its list. */
    method PutItem(i: int, ki: KeyItem<K>) returns (ghost k: int)
      requires Consistent() && 0 <= i < |dir| && Numbered(dir) && BlocksSorted(cmp, Lists(dir, cache.view))
      requires Sized(Lists(dir, cache.view), cache.maxItems)
      modifies cache
      ensures cache.Valid() && cache.Last(dir[i].item)
      ensures cache.lastBlock + 1 == |cache.disk| == |cache.view| == old(|cache.view|)
      ensures cache.full == if |Lists(dir, cache.view)[i]| > cache.maxItems then dir[i].item else -1
      ensures PlaceOf(cmp, old(Lists(dir, cache.view))[i], ki, k) && Linked(dir, cache.view)
      ensures Lists(dir, cache.view) ==
        old(Lists(dir, cache.view))[i := Inserted(old(Lists(dir, cache.view))[i], k, ki)]
      ensures (cache.control ==> old(cache.control)) && (old(cache.AllDirty()) ==> cache.AllDirty())
      ensures forall c :: 0 <= c < |cache.view| && c != dir[i].item ==> cache.view[c] == old(cache.view)[c]
      ensures Cached(old(cache.used), dir[i].item) ==>
        cache.disk == old(cache.disk) && SameMarks(old(cache.used), cache.used)
    {
      hide TotalPreorder, Linked, Numbered, BlocksSorted, Sized, Inserted, PlaceOf;
      hide Distinct, Coherent, Current, DiskFits, UsedFits, Lists, SameMarks, Refreshed;
      LinkedAt(dir, cache.view, i);
      ghost var l := Lists(dir, cache.view);
      BlockIsSorted(cmp, l, i);
      var b := dir[i].item;
      var ok := cache.GetIndexBlock(b);
      cache.LastIsCached(b);
      var blk := cache.BlockAt(b);
      var items;
      items, k := InsertLink(blk.items, ki);
      WriteLists(dir, cache.view, i, items);
      ghost var u := cache.used;
      ghost var j := cache.Write(b, blk.(items := items), false);
      if Cached(old(cache.used), b) {
        ghost var r :| 0 <= r < old(|cache.used|) && u == Refreshed(old(cache.used), r);
        MarksKept(old(cache.used), r, j, cache.used[j]);
      }
    }

    /** Split the block of entry i and give the new block an entry after it. */
    method SplitEntry(i: int)
      requires cache.Valid() && 0 <= i < |dir| && Numbered(dir) && Linked(dir, cache.view)
      requires cache.Last(dir[i].item) && cache.full == dir[i].item
      requires cache.lastBlock + 1 == |cache.disk| == |cache.view| == |dir| + 1 && (cache.control ==> |dir| <= 1)
      requires 2 <= |Lists(dir, cache.view)[i]| <= cache.maxItems + 1 && Over(nodes, |dir|)
      modifies this`dir, this`nodes, cache
      ensures cache.Valid() && cache.full == -1 && cache.lastBlock + 1 == |cache.disk| == |cache.view| == |dir| + 1
      ensures Linked(dir, cache.view) && (cache.control ==> |dir| <= 1) && Over(nodes, |dir|)
      ensures var s := old(Lists(dir, cache.view))[i]; var h := |s| - |s| / 2;
        dir == SplitDir(old(dir), i, KeyItem(|old(dir)| + 1, s[h].key))
        && Lists(dir, cache.view) == SplitLists(old(Lists(dir, cache.view)), i, s[..h], s[h..])
      ensures |dir| == old(|dir|) + 1
      ensures old(cache.AllDirty()) ==> cache.AllDirty()
    {
      hide Linked, Numbered, Distinct, Coherent, Current, DiskFits, UsedFits, Lists, SplitView, Over, Shifted;
      LinkedAt(dir, cache.view, i);
      LinksValid(dir, cache.view, i);
      var b := dir[i].item;
      ghost var v := cache.view;
      var n := cache.SplitBlock(b);
      var newBlock := cache.BlockAt(n);
      assert cache.view[n] == cache.view[1..][n - 1] == SplitView(v, b)[1..][n - 1];
      SplitHalves(dir, v, i, KeyItem(n, dir[i].key));
      var e := KeyItem(n, newBlock.items[0].key);
      SplitLinked(dir, v, i, e, cache.view);
      dir := dir[..i + 1] + [e] + dir[i + 1..];
      ShiftedOver(nodes, |dir| - 1, i + 1);
      nodes := Shifted(nodes, i + 1);
      if |dir| % SHELL_THRESHOLD == 0 {
        nodes := Restructure(|dir|);
      }
    }

    /** The block of entry i is split if it holds too many items. */
    method Settle(i: int)
      requires cache.Valid() && 0 <= i < |dir| && Numbered(dir) && Linked(dir, cache.view)
      requires cache.Last(dir[i].item)
      requires cache.full == if |Lists(dir, cache.view)[i]| > cache.maxItems then dir[i].item else -1
      requires cache.lastBlock + 1 == |cache.disk| == |cache.view| == |dir| + 1 && (cache.control ==> |dir| <= 1)
      requires 2 <= |Lists(dir, cache.view)[i]| <= cache.maxItems + 1 && Over(nodes, |dir|)
      modifies this`dir, this`nodes, cache
      ensures cache.Valid() && cache.full == -1 && cache.lastBlock + 1 == |cache.disk| == |cache.view| == |dir| + 1
      ensures Linked(dir, cache.view) && (cache.control ==> |dir| <= 1) && Over(nodes, |dir|)
      ensures dir == SettledDir(cache.maxItems, old(dir), old(Lists(dir, cache.view)), i)
      ensures Lists(dir, cache.view) == SettledLists(cache.maxItems, old(Lists(dir, cache.view)), i)
      ensures old(cache.AllDirty()) ==> cache.AllDirty()
      ensures |dir| == old(|dir|) ==>
        cache.used == old(cache.used) && cache.disk == old(cache.disk) && cache.view == old(cache.view)
    {
      hide Linked, Numbered, Distinct, Coherent, Current, DiskFits, UsedFits, Lists;
      hide SettledDir, SettledLists, SplitDir, SplitLists, Over;
      LinkedAt(dir, cache.view, i);
      SettledWhen(cache.maxItems, dir, Lists(dir, cache.view), i);
      var b := dir[i].item;
      cache.LastIsCached(b);
      var blk := cache.BlockAt(b);
      if |blk.items| > cache.maxItems {
        SplitEntry(i);
      }
    }

    /** queryShellItem: the nodes are built anew when searches have become slow, and the directory is searched. */
    method QueryShellItem(ki: KeyItem<K>) returns (found: int)
      requires Over(nodes, |dir|)
      modifies this`nodes, this`numCompares, this`thresh
      ensures Over(nodes, |dir|)
      ensures dir == [] ==> found == -1
      ensures dir != [] ==> if cmp(ki, dir[0]) < 0 then found == 0 else Answer(cmp, dir, ki, found)
    {
      hide Over, Answer;
      var due;
      due, thresh := Overdue(numCompares, thresh);
      if due {
        nodes := Restructure(|dir|);
      }
      found, numCompares := Search(cmp, dir, nodes, ki);
    }

    /** A new block that holds one item. */
    method FirstBlock(ki: KeyItem<K>) returns (n: int)
      requires cache.Valid() && cache.full == -1 && cache.lastBlock + 1 == |cache.disk| == |cache.view|
      requires TotalPreorder(cmp) && cache.maxItems >= 1
      modifies cache
      ensures cache.Valid() && cache.full == -1 && cache.lastBlock + 1 == |cache.disk| == |cache.view| == n + 1
      ensures n == old(|cache.view|) && cache.view[n] == Block(0, 0, [ki]) && Cached(cache.used, n)
      ensures (cache.control ==> old(cache.control)) && (old(cache.AllDirty()) ==> cache.AllDirty())
    {
      hide TotalPreorder, Distinct, Coherent, Current, DiskFits, UsedFits, Sorted, PlaceOf;
      n := cache.lastBlock + 1;
      var new' := cache.GetNewBlock(n);
      cache.lastBlock := n;
      cache.LastIsCached(n);
      hide Cached;
      var blk := cache.BlockAt(n);
      ghost var u := cache.used;
      SortedNone(cmp, blk.items);
      var items, k' := InsertLink(blk.items, ki);
      OnlyPlace(cmp, blk.items, ki, k');
      ghost var k := cache.Write(n, Block(0, 0, items), true);
      if old(cache.AllDirty()) {
        WriteNewDirty(u, cache.used, k, n);
      }
      InUsed(cache.used, k);
    }

    /** The first item of an index starts block and directory; blocks too small for four items are refused. */
    method AddFirst(ki: KeyItem<K>) returns (ok: bool)
      requires Consistent() && dir == [] && cache.maxItems >= 1
      modifies this`dir, cache
      ensures Consistent() && (ok <==> cache.maxItems >= MIN_ITEMS_PER_BLOCK)
      ensures Stored() == if ok then State([KeyItem(1, ki.key)], [[ki]]) else State([], [])
      ensures ok ==> Cached(cache.used, 1)
      ensures old(cache.AllDirty()) ==> cache.AllDirty()
    {
      hide TotalPreorder, Distinct, Coherent, Current, DiskFits, UsedFits;
      var n := FirstBlock(ki);
      ok := cache.maxItems >= MIN_ITEMS_PER_BLOCK;
      if ok {
        dir := [KeyItem(n, ki.key)];
        assert LinkOk(dir, cache.view, 0);
      }
    }

    /** addIndexItem, duplicates allowed. An item below the first directory key must be safe to copy over it. */
    method AddIndexItem(ki: KeyItem<K>) returns (ok: bool)
      requires Valid() && (dir != [] && cmp(ki, dir[0]) < 0 ==> sizes.Inside())
      modifies this, cache
      ensures Valid() && (ok <==> cache.maxItems >= MIN_ITEMS_PER_BLOCK == 4)
      ensures added == if ok then old(added) + [ki] else old(added)
      ensures ok ==> Added(cmp, refresh, cache.maxItems, old(Stored()), ki, Stored())
      ensures old(cache.AllDirty()) ==> cache.AllDirty()
      ensures ok && old(dir) == [] ==> Cached(cache.used, 1)
      ensures shell && (|dir| == old(|dir|) > 0 ==>
        ChangedInCache(old(cache.view), old(cache.used), old(cache.disk), cache.view, cache.used, cache.disk))
    {
      hide TotalPreorder, Linked, Added, Run, Lists, ChangedInCache, Cached;
      hide Distinct, Coherent, Current, DiskFits, UsedFits;
      shell := true;
      if dir == [] {
        NothingAdded(cmp, refresh, cache.maxItems, added, Stored());
        ok := AddFirst(ki);
        if ok {
          FirstAdded(cmp, refresh, cache.maxItems, old(Stored()), ki);
          RunMore(cmp, refresh, cache.maxItems, added, old(Stored()), ki, Stored());
          numItems := numItems + 1;
          added := added + [ki];
        }
        return;
      }
      AddToBlock(ki);
      RunMore(cmp, refresh, cache.maxItems, added, old(Stored()), ki, Stored());
      numItems := numItems + 1;
      added := added + [ki];
      ok := true;
    }

    /** Add to the block the directory names, refreshing the first directory key if the item is below it. */
    method AddToBlock(ki: KeyItem<K>)
      requires Valid() && dir != [] && (cmp(ki, dir[0]) < 0 ==> sizes.Inside())
      modifies this`dir, this`nodes, this`numCompares, this`thresh, cache
      ensures Consistent() && Added(cmp, refresh, cache.maxItems, old(Stored()), ki, Stored())
      ensures old(cache.AllDirty()) ==> cache.AllDirty()
      ensures |dir| == old(|dir|) ==>
        ChangedInCache(old(cache.view), old(cache.used), old(cache.disk), cache.view, cache.used, cache.disk)
    {
      hide TotalPreorder, Linked, Run, Lists, Sized;
      hide Numbered, BlocksSorted, PlaceOf, Inserted, SettledDir, SettledLists;
      hide Answer, SameMarks, Cached, Over;
      RunShape(cmp, refresh, cache.maxItems, added, Stored());
      ghost var s := Stored();
      var below := cmp(ki, dir[0]) < 0;
      var i := 0;
      if !below {
        i := QueryShellItem(ki);
      }
      AnswerInRange(cmp, dir, ki, i);
      ghost var k := PutItem(i, ki);
      if below {
        RefreshLinked(cmp, refresh, dir, ki, cache.view);
        dir := dir[0 := KeyItem(dir[0].item, refresh(dir[0].key, ki.key))];
      }
      ListSize(s.lists, cache.maxItems, i);
      InsertedSize(cmp, s.lists[i], ki, k);
      Settle(i);
      assert AddedAt(cmp, refresh, cache.maxItems, s, ki, Stored(), i, k);
    }

    /** The current block is still in its buffer, and there is a current item in it. */
    ghost predicate Cursor()
      reads this, cache
    {
      && 0 <= entry < |dir| && current == dir[entry].item && Cached(cache.used, current)
      && 0 <= at < |Lists(dir, cache.view)[entry]|
    }

    /** How many items come before the current one. */
    ghost function Position(): int
      reads this, cache
    {
      if 0 <= entry <= |dir| then |Flatten(Lists(dir, cache.view)[..entry])| + at else 0
    }

    /** Make the block of entry i the current one. */
    method Visit(ghost i: int, b: int) returns (items: seq<KeyItem<K>>)
      requires Valid() && 0 <= i < |dir| && b == dir[i].item
      modifies this`current, this`entry, cache
      ensures Valid() && cache.view == old(cache.view) && current == b && entry == i && Cached(cache.used, b)
      ensures items == Lists(dir, cache.view)[i] && items != []
      ensures old(cache.AllDirty()) ==> cache.AllDirty()
    {
      hide TotalPreorder, Linked, Run, Lists, Sized, Numbered;
      hide BlocksSorted, Distinct, Coherent, Current, DiskFits, UsedFits;
      RunShape(cmp, refresh, cache.maxItems, added, Stored());
      ListSize(Lists(dir, cache.view), cache.maxItems, i);
      LinkedAt(dir, cache.view, i);
      var ok := cache.GetIndexBlock(b);
      cache.LastIsCached(b);
      var blk := cache.BlockAt(b);
      items := blk.items;
      current, entry := b, i;
    }

    /**
     flushIndexBlocks: the disk shows all that was added exactly if no clean buffer was changed since it was
     written.
     */
    method Flush()
      requires Valid()
      modifies cache
      ensures Valid() && cache.view == old(cache.view) && Items() == old(Items())
      ensures cache.used == Cleaned(old(cache.used), |old(cache.used)|) && |cache.disk| == old(|cache.disk|)
      ensures cache.disk == Flushed(old(cache.used), old(cache.disk), |old(cache.used)|)
      ensures (forall b :: 0 < b < |cache.disk| ==> cache.disk[b] == cache.view[b]) <==>
        (forall s :: s in old(cache.used) && s.number != 0 && !s.dirty ==>
          0 <= s.number < |old(cache.disk)| && s.block == old(cache.disk)[s.number])
      ensures old(cache.AllDirty()) ==> forall b :: 0 < b < |cache.disk| ==> cache.disk[b] == cache.view[b]
    {
      hide TotalPreorder, Linked, Run, Lists, Distinct, Coherent, Current, DiskFits, UsedFits, Cleaned, Flushed;
      FlushExact(cache.used, cache.disk, cache.view);
      cache.FlushIndexBlocks();
    }

    method FirstIndexItem() returns (r: Option<KeyItem<K>>)
      requires Valid() && shell
      modifies this`isSequential, this`current, this`at, this`entry, cache
      ensures Valid() && cache.view == old(cache.view) && Items() == old(Items())
      ensures old(cache.AllDirty()) ==> cache.AllDirty()
      ensures if Items() == [] then r == None && dir == [] else dir != []
      ensures Items() != [] ==> isSequential && Cursor() && Position() == 0 && r == Some(Items()[0])
    {
      hide TotalPreorder, Linked, Run, Lists, Flatten, Distinct, Coherent, Current, DiskFits, UsedFits;
      NoBlocks(dir, cache.view);
      if |dir| == 0 {
        return None;
      }
      var items := Visit(0, dir[0].item);
      at, isSequential := 0, true;
      ItemAt(Lists(dir, cache.view), 0, 0);
      r := Some(items[0]);
    }

    method LastIndexItem() returns (r: Option<KeyItem<K>>)
      requires Valid() && shell
      modifies this`isSequential, this`current, this`at, this`entry, cache
      ensures Valid() && cache.view == old(cache.view) && Items() == old(Items())
      ensures old(cache.AllDirty()) ==> cache.AllDirty()
      ensures if Items() == [] then r == None && dir == [] else dir != []
      ensures Items() != [] ==>
        isSequential && Cursor() && Position() == |Items()| - 1 && r == Some(Items()[|Items()| - 1])
    {
      hide TotalPreorder, Linked, Run, Lists, Flatten, Distinct, Coherent, Current, DiskFits, UsedFits;
      NoBlocks(dir, cache.view);
      if |dir| == 0 {
        return None;
      }
      var items := Visit(|dir| - 1, dir[|dir| - 1].item);
      at, isSequential := |items| - 1, true;
      ItemAt(Lists(dir, cache.view), |dir| - 1, at);
      r := Some(items[at]);
    }

    /** Where the links of the current block lead. */
    lemma CursorFacts()
      requires Valid() && Cursor()
      ensures 0 < current < |cache.view| && cache.view[current].items == Lists(dir, cache.view)[entry]
      ensures cache.view[current].prev == NumberAt(dir, entry - 1) && (cache.view[current].prev == 0 <==> entry == 0)
      ensures cache.view[current].next == NumberAt(dir, entry + 1)
      ensures cache.view[current].next == 0 <==> entry == |dir| - 1
    {
      hide TotalPreorder, Linked, Run, Lists, Sized, Numbered;
      hide BlocksSorted, Distinct, Coherent, Current, DiskFits, UsedFits;
      RunShape(cmp, refresh, cache.maxItems, added, Stored());
      LinkedAt(dir, cache.view, entry);
      if entry > 0 {
        NumbersDiffer(dir, entry - 1, entry - 1);
      }
      if entry < |dir| - 1 {
        NumbersDiffer(dir, entry + 1, entry + 1);
      }
    }

    method NextIndexItem() returns (r: Option<KeyItem<K>>)
      requires Valid() && (isSequential && dir != [] ==> Cursor())
      modifies this`current, this`at, this`entry, cache
      ensures Valid() && cache.view == old(cache.view) && Items() == old(Items())
      ensures old(cache.AllDirty()) ==> cache.AllDirty()
      ensures !isSequential || dir == [] ==> r == None
      ensures isSequential && dir != [] ==> Cursor()
      ensures isSequential && dir != [] && old(Position()) + 1 < |Items()| ==>
        Position() == old(Position()) + 1 && r == Some(Items()[Position()])
      ensures isSequential && dir != [] && old(Position()) + 1 >= |Items()| ==>
        Position() == old(Position()) && r == None
    {
      hide TotalPreorder, Linked, Run, Lists, Distinct, Coherent, Current, DiskFits, UsedFits, Flatten;
      if !isSequential || |dir| == 0 {
        return None;
      }
      ghost var l := Lists(dir, cache.view);
      CursorFacts();
      var blk := cache.BlockAt(current);
      ItemAt(l, entry, at);
      if at + 1 < |blk.items| {
        ItemAt(l, entry, at + 1);
        at := at + 1;
        return Some(blk.items[at]);
      }
      if blk.next == 0 {
        at := |blk.items| - 1;
        return None;
      }
      var items := Visit(entry + 1, blk.next);
      ItemAt(l, entry, 0);
      at := 0;
      r := Some(items[0]);
    }

    method PrevIndexItem() returns (r: Option<KeyItem<K>>)
      requires Valid() && (isSequential && dir != [] ==> Cursor())
      modifies this`current, this`at, this`entry, cache
      ensures Valid() && cache.view == old(cache.view) && Items() == old(Items())
      ensures old(cache.AllDirty()) ==> cache.AllDirty()
      ensures !isSequential || dir == [] ==> r == None
      ensures isSequential && dir != [] ==> Cursor()
      ensures isSequential && dir != [] && old(Position()) > 0 ==>
        Position() == old(Position()) - 1 && 0 <= Position() < |Items()| && r == Some(Items()[Position()])
      ensures isSequential && dir != [] && old(Position()) == 0 ==> Position() == 0 && r == None
    {
      hide TotalPreorder, Linked, Run, Lists, Distinct, Coherent, Current, DiskFits, UsedFits, Flatten;
      if !isSequential || |dir| == 0 {
        return None;
      }
      ghost var l := Lists(dir, cache.view);
      CursorFacts();
      var blk := cache.BlockAt(current);
      ItemAt(l, entry, at);
      if at > 0 {
        ItemAt(l, entry, at - 1);
        at := at - 1;
        return Some(blk.items[at]);
      }
      if blk.prev == 0 {
        at := 0;
        return None;
      }
      var items := Visit(entry - 1, blk.prev);
      at := |items| - 1;
      ItemAt(l, entry, at);
      r := Some(items[at]);
    }
  }

  /** The block numbers met on the way from block b along the next links, at most n. */
  ghost function Walk<T>(view: seq<Block<T>>, b: int, n: nat): seq<int>
    decreases n
  {
    if n == 0 || !(0 < b < |view|) then [] else [b] + Walk(view, view[b].next, n - 1)
  }

  lemma {:induction false} WalkFrom<K>(dir: seq<KeyItem<K>>, view: seq<Block<KeyItem<K>>>, i: int, n: nat)
    requires Linked(dir, view) && 0 <= i <= |dir| && n >= |dir| - i
    ensures |Walk(view, NumberAt(dir, i), n)| == |dir| - i
    ensures forall j :: i <= j < |dir| ==> Walk(view, NumberAt(dir, i), n)[j - i] == dir[j].item
    decreases n
  {
    if i < |dir| {
      LinkedAt(dir, view, i);
      hide Linked;
      WalkFrom(dir, view, i + 1, n - 1);
    }
  }

  /**
   The chain of next links from the first block passes through exactly the blocks of the directory, in its
   order; the prev links lead back; no block is overfull and, with two or more, each is at least half full.
   */
  ghost predicate WellChained<K>(dir: seq<KeyItem<K>>, view: seq<Block<KeyItem<K>>>, max: int, n: nat) {
    && |Walk(view, NumberAt(dir, 0), n)| == |dir|
    && forall i :: 0 <= i < |dir| ==>
        && 0 < dir[i].item < |view|
        && Walk(view, NumberAt(dir, 0), n)[i] == dir[i].item
        && view[dir[i].item].prev == NumberAt(dir, i - 1)
        && 1 <= |view[dir[i].item].items| <= max
        && (|dir| > 1 ==> (max + 1) / 2 <= |view[dir[i].item].items|)
  }

  lemma ChainIntro<K>(dir: seq<KeyItem<K>>, view: seq<Block<KeyItem<K>>>, max: int, n: nat)
    requires Linked(dir, view) && Sized(Lists(dir, view), max) && n >= |dir|
    ensures WellChained(dir, view, max, n)
  {
    WalkFrom(dir, view, 0, n);
    hide Linked, Walk, Lists, Sized;
    var w := Walk(view, NumberAt(dir, 0), n);
    forall i | 0 <= i < |dir| ensures 0 < dir[i].item < |view| && w[i] == dir[i].item
      && view[dir[i].item].prev == NumberAt(dir, i - 1) && 1 <= |view[dir[i].item].items| <= max
      && (|dir| > 1 ==> (max + 1) / 2 <= |view[dir[i].item].items|)
    {
      assert w[i - 0] == dir[i].item;
      LinkedAt(dir, view, i);
      ListSize(Lists(dir, view), max, i);
    }
  }

  /** After any adds the blocks are well chained. */
  lemma BlocksInOrder<K(!new)>(idx: DbIndex<K>, n: nat)
    requires idx.Valid() && n >= |idx.dir|
    ensures WellChained(idx.dir, idx.cache.view, idx.cache.maxItems, n)
  {
    hide TotalPreorder, Run, Distinct, Coherent, Current, DiskFits;
    hide UsedFits, Linked, Lists, WellChained, BlocksSorted, Sized, Numbered;
    if idx.cache.maxItems < MIN_ITEMS_PER_BLOCK {
      NoChain(idx.dir, idx.cache.view, idx.cache.maxItems, n);
    } else {
      RunShape(idx.cmp, idx.refresh, idx.cache.maxItems, idx.added, idx.Stored());
      ChainIntro(idx.dir, idx.cache.view, idx.cache.maxItems, n);
    }
  }

  lemma NoChain<K>(dir: seq<KeyItem<K>>, view: seq<Block<KeyItem<K>>>, max: int, n: nat)
    requires dir == []
    ensures WellChained(dir, view, max, n)
  {
  }

  /** The second add to one block with room: no split, and the block then has two items. */
  lemma SecondAdd<K(!new)>(cmp: Compare<K>, refresh: (K, K) -> K, max: int, x: KeyItem<K>, y: KeyItem<K>, t: State<K>)
    requires max >= 2 && Added(cmp, refresh, max, State([KeyItem(1, x.key)], [[x]]), y, t)
    ensures |t.dir| == |t.lists| == 1 && t.dir[0].item == 1 && |t.lists[0]| == 2
  {
    var s := State([KeyItem(1, x.key)], [[x]]);
    var i, k :| AddedAt(cmp, refresh, max, s, y, t, i, k);
    assert i == 0 && |Inserted([x], k, y)| == 2;
  }

  /** After a flush no buffer is marked. */
  lemma CleanedMarks<T>(used: seq<Slot<T>>, b: int)
    requires Cached(used, b)
    ensures Cached(Cleaned(used, |used|), b) && Marked(Cleaned(used, |used|), b, false)
  {
    var s :| s in used && s.number == b;
    var k :| 0 <= k < |used| && used[k] == s;
    assert Cleaned(used, |used|)[k] in Cleaned(used, |used|);
  }

  /** A cached block without a mark keeps its copy on disk through a flush. */
  lemma CleanStays<T>(used: seq<Slot<T>>, disk: seq<Block<T>>, view: seq<Block<T>>, b: int)
    requires Distinct(used) && Coherent(used, disk, view) && Marked(used, b, false) && 0 <= b < |disk|
    ensures |Flushed(used, disk, |used|)| == |disk| && Flushed(used, disk, |used|)[b] == disk[b]
  {
    FlushExact(used, disk, view);
    var s :| s in used && s.number == b && !s.dirty;
    var k :| 0 <= k < |used| && used[k] == s;
    hide Flushed;
    FlushedAt(used, disk, |used|, b);
    assert used[k].number == b;
  }

  /** An index with one item. */
  method OneItem<K(!new)>(cmp: Compare<K>, refresh: (K, K) -> K, sizes: KeySizes, max: int, x: KeyItem<K>)
    returns (idx: DbIndex<K>)
    requires TotalPreorder(cmp) && sizes.Valid() && max >= MIN_ITEMS_PER_BLOCK
    ensures fresh(idx) && fresh(idx.cache) && idx.Valid() && idx.added == [x] && idx.shell
    ensures idx.cmp == cmp && idx.refresh == refresh && idx.sizes == sizes && idx.cache.maxItems == max
    ensures idx.Stored() == State([KeyItem(1, x.key)], [[x]]) && idx.cache.AllDirty() && Cached(idx.cache.used, 1)
  {
    hide TotalPreorder, Run, Linked, Distinct, Coherent, Current, DiskFits, UsedFits;
    idx := new DbIndex(cmp, refresh, sizes, max);
    var ok := idx.AddIndexItem(x);
  }

  /** Block 1 of an index of one item. */
  lemma FirstList<K(!new)>(idx: DbIndex<K>)
    requires idx.Valid() && |idx.dir| == 1 && idx.dir[0].item == 1
    ensures |idx.cache.view| == |idx.cache.disk| == 2
    ensures idx.Stored().lists[0] == idx.cache.view[1].items
  {
    LinkedAt(idx.dir, idx.cache.view, 0);
  }

  /** Flush an index of one item: the item is on disk and its block has no mark. */
  method FlushOneItem<K(!new)>(idx: DbIndex<K>, x: KeyItem<K>)
    requires idx.Valid() && idx.Stored() == State([KeyItem(1, x.key)], [[x]]) && idx.cache.AllDirty()
    requires Cached(idx.cache.used, 1)
    modifies idx.cache
    ensures idx.Valid() && idx.Stored() == old(idx.Stored())
    ensures |idx.cache.disk| == |idx.cache.view| == 2 && idx.cache.disk[1].items == [x] == idx.cache.view[1].items
    ensures Cached(idx.cache.used, 1) && Marked(idx.cache.used, 1, false)
  {
    hide TotalPreorder, Run, Linked, Distinct, Coherent, Current;
    hide DiskFits, UsedFits, Lists, Cached, Marked, Cleaned, Flushed;
    FirstList(idx);
    CleanedMarks(idx.cache.used, 1);
    idx.Flush();
  }

  /**
   What a flush can miss: add, flush, add and flush again. The second item goes into the cached block without
   a mark, so the disk is left without it.
   */
  method LostUpdate<K(!new)>(cmp: Compare<K>, refresh: (K, K) -> K, sizes: KeySizes, max: int, x: KeyItem<K>,
    y: KeyItem<K>) returns (idx: DbIndex<K>)
    requires TotalPreorder(cmp) && sizes.Valid() && max >= MIN_ITEMS_PER_BLOCK
    requires cmp(y, KeyItem(1, x.key)) < 0 ==> sizes.Inside()
    ensures fresh(idx) && idx.Valid() && idx.added == [x, y]
    ensures |idx.cache.disk| == |idx.cache.view| == 2 && |idx.cache.view[1].items| == 2
    ensures idx.cache.disk[1].items == [x]
  {
    hide TotalPreorder, Run, Added, Linked, Distinct, Coherent, Current, DiskFits, UsedFits, Lists, Flushed, Cleaned;
    idx := OneItem(cmp, refresh, sizes, max, x);
    FlushOneItem(idx, x);
    var ok := idx.AddIndexItem(y);
    SecondAdd(cmp, refresh, max, x, y, idx.Stored());
    FirstList(idx);
    assert Marked(idx.cache.used, 1, false);
    hide Cached, Marked;
    CleanStays(idx.cache.used, idx.cache.disk, idx.cache.view, 1);
    idx.Flush();
  }

  lemma NoBlocks<K>(dir: seq<KeyItem<K>>, view: seq<Block<KeyItem<K>>>)
    ensures dir == [] ==> Flatten(Lists(dir, view)) == []
  {
  }

  /** firstIndexItem, then nextIndexItem until there is none: every added item once, in order for good keys. */
  method ScanForward<K(!new)>(idx: DbIndex<K>, ghost good: K -> bool) returns (out: seq<KeyItem<K>>)
    requires idx.Valid() && idx.shell
    modifies idx, idx.cache
    ensures idx.Valid() && idx.added == old(idx.added)
    ensures out == idx.Items() && multiset(out) == multiset(idx.added)
    ensures SafeKeys(idx.cmp, idx.refresh, good, idx.added) ==> Sorted(idx.cmp, out)
  {
    hide *;
    ScanFacts(idx, good);
    var r := idx.FirstIndexItem();
    out := [];
    while r.Some?
      invariant idx.Valid() && idx.added == old(idx.added) && idx.Items() == old(idx.Items())
      invariant r.Some? ==> idx.isSequential && idx.Cursor() && idx.dir != []
      invariant r.Some? ==> |out| == idx.Position() < |idx.Items()| && r.value == idx.Items()[|out|]
      invariant |out| <= |idx.Items()| && out == idx.Items()[..|out|]
      invariant r == None ==> |out| == |idx.Items()|
      decreases |idx.Items()| - |out|, r.Some?
    {
      out := out + [r.value];
      r := idx.NextIndexItem();
    }
  }

  /** What the scans rely on. */
  lemma ScanFacts<K(!new)>(idx: DbIndex<K>, good: K -> bool)
    requires idx.Valid()
    ensures multiset(idx.Items()) == multiset(idx.added) && (idx.dir == [] ==> idx.Items() == [])
    ensures SafeKeys(idx.cmp, idx.refresh, good, idx.added) ==> Sorted(idx.cmp, idx.Items())
  {
    hide TotalPreorder, Run, KeyOnly, Harmless, Sorted, Flatten;
    NoBlocks(idx.dir, idx.cache.view);
    if idx.cache.maxItems < MIN_ITEMS_PER_BLOCK {
      NothingAdded(idx.cmp, idx.refresh, idx.cache.maxItems, idx.added, idx.Stored());
      SortedNone(idx.cmp, idx.Items());
      return;
    }
    RunShape(idx.cmp, idx.refresh, idx.cache.maxItems, idx.added, idx.Stored());
    if SafeKeys(idx.cmp, idx.refresh, good, idx.added) {
      RunOrdered(idx.cmp, idx.refresh, good, idx.cache.maxItems, idx.added, idx.Stored());
    }
  }

  function Reverse<T>(s: seq<T>): (r: seq<T>)
    ensures |r| == |s| && forall i :: 0 <= i < |s| ==> r[i] == s[|s| - 1 - i]
  {
    if s == [] then [] else [s[|s| - 1]] + Reverse(s[..|s| - 1])
  }

  /** lastIndexItem, then prevIndexItem until there is none: the same items in the opposite order. */
  method ScanBackward<K(!new)>(idx: DbIndex<K>) returns (out: seq<KeyItem<K>>)
    requires idx.Valid() && idx.shell
    modifies idx, idx.cache
    ensures idx.Valid() && idx.added == old(idx.added) && out == Reverse(idx.Items()) && idx.Items() == old(idx.Items())
  {
    hide *;
    ScanFacts(idx, (k: K) => true);
    var r := idx.LastIndexItem();
    out := [];
    while r.Some?
      invariant idx.Valid() && idx.added == old(idx.added) && idx.Items() == old(idx.Items())
      invariant r.Some? ==> idx.isSequential && idx.Cursor() && idx.dir != []
      invariant r.Some? ==> 0 <= idx.Position() == |idx.Items()| - 1 - |out| && r.value == idx.Items()[idx.Position()]
      invariant |out| <= |idx.Items()| && forall j :: 0 <= j < |out| ==> out[j] == idx.Items()[|idx.Items()| - 1 - j]
      invariant r == None ==> |out| == |idx.Items()|
      decreases |idx.Items()| - |out|, r.Some?
    {
      out := out + [r.value];
      r := idx.PrevIndexItem();
    }
  }

  /** The j-th item of block i among all items; after the last of a block comes the first of the next. */
  lemma ItemAt<T>(lists: seq<seq<T>>, i: int, j: int)
    requires 0 <= i < |lists| && 0 <= j < |lists[i]|
    ensures |Flatten(lists[..i])| + j < |Flatten(lists)| && Flatten(lists)[|Flatten(lists[..i])| + j] == lists[i][j]
    ensures |Flatten(lists[..i + 1])| == |Flatten(lists[..i])| + |lists[i]|
    ensures i == 0 ==> Flatten(lists[..i]) == []
    ensures i == |lists| - 1 ==> |Flatten(lists)| == |Flatten(lists[..i])| + |lists[i]|
  {
    FlattenAt(lists, i);
  }

  lemma InsertedSize<K>(cmp: Compare<K>, s: seq<KeyItem<K>>, x: KeyItem<K>, k: int)
    requires PlaceOf(cmp, s, x, k)
    ensures 0 <= k <= |s| && |Inserted(s, k, x)| == |s| + 1
  {
  }

  lemma AnswerInRange<K>(cmp: Compare<K>, dir: seq<KeyItem<K>>, x: KeyItem<K>, i: int)
    requires dir != [] && (i == 0 || Answer(cmp, dir, x, i))
    ensures 0 <= i < |dir|
  {
  }

  /** Refreshing the first key leaves block numbers, links and lists alone. */
  lemma RefreshLinked<K>(cmp: Compare<K>, refresh: (K, K) -> K, dir: seq<KeyItem<K>>, x: KeyItem<K>,
    view: seq<Block<KeyItem<K>>>)
    requires dir != [] && Numbered(dir) && Linked(dir, view)
    ensures Numbered(RefreshedDir(cmp, refresh, dir, x)) && Linked(RefreshedDir(cmp, refresh, dir, x), view)
    ensures Lists(RefreshedDir(cmp, refresh, dir, x), view) == Lists(dir, view)
  {
    RefreshedNumbered(cmp, refresh, dir, x);
    hide Numbered;
    var d := RefreshedDir(cmp, refresh, dir, x);
    forall j | 0 <= j < |d| ensures LinkOk(d, view, j) {
      assert LinkOk(dir, view, j);
    }
  }

  lemma NothingAdded<K(!new)>(cmp: Compare<K>, refresh: (K, K) -> K, max: int, xs: seq<KeyItem<K>>, t: State<K>)
    requires Run(cmp, refresh, max, xs, t) && t.dir == [] && max >= 1
    ensures xs == [] && t == State([], [])
  {
  }

  lemma FirstAdded<K(!new)>(cmp: Compare<K>, refresh: (K, K) -> K, max: int, s: State<K>, x: KeyItem<K>)
    requires s.dir == []
    ensures Added(cmp, refresh, max, s, x, State([KeyItem(1, x.key)], [[x]]))
  {
  }

  lemma RunMore<K(!new)>(cmp: Compare<K>, refresh: (K, K) -> K, max: int, xs: seq<KeyItem<K>>, s: State<K>,
    x: KeyItem<K>, t: State<K>)
    requires Run(cmp, refresh, max, xs, s) && Added(cmp, refresh, max, s, x, t)
    ensures Run(cmp, refresh, max, xs + [x], t)
  {
    hide Added;
    assert Front(xs + [x]) == xs && Back(xs + [x]) == x;
  }

  lemma SortedNone<K>(cmp: Compare<K>, s: seq<KeyItem<K>>)
    requires s == []
    ensures Sorted(cmp, s)
  {
  }

  lemma OnlyPlace<K>(cmp: Compare<K>, s: seq<KeyItem<K>>, x: KeyItem<K>, k: int)
    requires s == [] && PlaceOf(cmp, s, x, k)
    ensures k == 0 && Inserted(s, k, x) == [x]
  {
  }

  lemma WriteNewDirty<T>(u: seq<Slot<T>>, used: seq<Slot<T>>, k: int, n: int)
    requires Distinct(u) && 0 <= k < |u| == |used| && u[k].number == n
    requires forall s :: s in u && s.number != n ==> s.dirty
    requires used == u[k := used[k]] && used[k].dirty
    ensures forall s :: s in used ==> s.dirty
  {
    TwoWritesDirty(u, used, used, k, k, n);
  }

  lemma SettledWhen<K>(max: int, dir: seq<KeyItem<K>>, lists: seq<seq<KeyItem<K>>>, i: int)
    requires 0 <= i < |dir| == |lists| && |lists[i]| >= 2
    ensures |lists[i]| <= max ==> SettledDir(max, dir, lists, i) == dir && SettledLists(max, lists, i) == lists
    ensures |lists[i]| > max ==> var h := |lists[i]| - |lists[i]| / 2;
      SettledDir(max, dir, lists, i) == SplitDir(dir, i, KeyItem(|dir| + 1, lists[i][h].key))
      && SettledLists(max, lists, i) == SplitLists(lists, i, lists[i][..h], lists[i][h..])
  {
  }

  lemma LinksValid<K>(dir: seq<KeyItem<K>>, view: seq<Block<KeyItem<K>>>, i: int)
    requires Linked(dir, view) && Numbered(dir) && 0 <= i < |dir| && |view| == |dir| + 1
    ensures 0 < dir[i].item < |view| && 0 <= view[dir[i].item].next < |view| && view[dir[i].item].next != dir[i].item
    ensures |dir| == 1 ==> view[dir[i].item].next == 0
  {
    LinkedAt(dir, view, i);
    if i + 1 < |dir| {
      NumbersDiffer(dir, i, i + 1);
      NumbersDiffer(dir, i + 1, i + 1);
    }
  }

  lemma ListSize<K>(l: seq<seq<KeyItem<K>>>, max: int, i: int)
    requires Sized(l, max) && 0 <= i < |l|
    ensures 1 <= |l[i]| <= max && (|l| > 1 ==> (max + 1) / 2 <= |l[i]|)
  {
  }

  lemma BlockIsSorted<K>(cmp: Compare<K>, l: seq<seq<KeyItem<K>>>, i: int)
    requires BlocksSorted(cmp, l) && 0 <= i < |l|
    ensures Sorted(cmp, l[i])
  {
  }

  lemma BelowAll<K(!new)>(cmp: Compare<K>, items: seq<KeyItem<K>>, x: KeyItem<K>, k: int)
    requires TotalPreorder(cmp) && Sorted(cmp, items) && 0 <= k < |items| && cmp(x, items[k]) < 0
    ensures forall j :: k <= j < |items| ==> cmp(x, items[j]) < 0
  {
    hide TotalPreorder;
    forall j | k <= j < |items| ensures cmp(x, items[j]) < 0 {
      if j > k {
        StrictTrans(cmp, x, items[k], items[j]);
      }
    }
  }

  lemma AboveAll<K(!new)>(cmp: Compare<K>, items: seq<KeyItem<K>>, x: KeyItem<K>, n: int)
    requires TotalPreorder(cmp) && Sorted(cmp, items) && n == |items| > 0 && cmp(x, items[n - 1]) > 0
    ensures forall j :: 0 <= j < n ==> cmp(items[j], x) <= 0
  {
    hide TotalPreorder;
    Flip(cmp, items[n - 1], x);
    forall j | 0 <= j < n ensures cmp(items[j], x) <= 0 {
      if j < n - 1 {
        Trans(cmp, items[j], items[n - 1], x);
      }
    }
  }
}
