/** The write-back block cache of an index: free and used lists of nine buffers over a block file. */
module IdxBlk {

  const BLOCK_CACHE_SIZE := 9

  /** A block: its links to the neighbours in index order and its items. */
  datatype Block<T> = Block(prev: int, next: int, items: seq<T>)

  /** A buffer of the cache. */
  datatype Slot<T> = Slot(number: int, block: Block<T>, dirty: bool)

  function EmptySlot<T>(): Slot<T> { Slot(0, Block(0, 0, []), false) }

  /** No block is cached twice. */
  ghost predicate Distinct<T>(used: seq<Slot<T>>) {
    forall j, k :: 0 <= j < k < |used| ==> used[j].number != used[k].number
  }

  /** The block number b is in the cache. */
  ghost predicate Cached<T>(used: seq<Slot<T>>, b: int) {
    exists s :: s in used && s.number == b
  }

  /** A buffer holds the contents its block stands for; block 0 is not accounted for. */
  ghost predicate Current<T>(s: Slot<T>, view: seq<Block<T>>) {
    0 <= s.number < |view| && (s.number != 0 ==> s.block == view[s.number])
  }

  /** Seen through the cache, block b has the contents view[b]. */
  ghost predicate Coherent<T>(used: seq<Slot<T>>, disk: seq<Block<T>>, view: seq<Block<T>>) {
    && |view| == |disk|
    && (forall s :: s in used ==> Current(s, view))
    && (forall b :: 0 < b < |disk| && !Cached(used, b) ==> disk[b] == view[b])
  }

  /** No block on disk holds more than max items. */
  ghost predicate DiskFits<T>(disk: seq<Block<T>>, max: int) {
    forall b :: 0 <= b < |disk| ==> |disk[b].items| <= max
  }

  /** No cached block but possibly number full holds more than max items. */
  ghost predicate UsedFits<T>(used: seq<Slot<T>>, max: int, full: int) {
    forall s :: s in used && s.number != full ==> |s.block.items| <= max
  }

  /** Distinct block numbers from lo up to below hi are at most hi - lo. */
  lemma {:induction false} Pigeonhole<T>(used: seq<Slot<T>>, lo: int, hi: int)
    requires Distinct(used) && lo <= hi
    requires forall k :: 0 <= k < |used| ==> lo <= used[k].number < hi
    ensures |used| <= hi - lo
    decreases hi - lo
  {
    if used == [] {
      return;
    }
    assert lo <= used[0].number < hi;
    if k: int :| 0 <= k < |used| && used[k].number == hi - 1 {
      var u := used[..k] + used[k + 1..];
      forall j | 0 <= j < |u| ensures lo <= u[j].number < hi - 1 {
        assert u[j] == used[if j < k then j else j + 1];
      }
      forall i, j | 0 <= i < j < |u| ensures u[i].number != u[j].number {
        assert u[i] == used[if i < k then i else i + 1] && u[j] == used[if j < k then j else j + 1];
      }
      Pigeonhole(u, lo, hi - 1);
    } else {
      Pigeonhole(used, lo, hi - 1);
    }
  }

  /** The k-th buffer moves to the end of the list. */
  function Refreshed<T>(used: seq<Slot<T>>, k: int): (u: seq<Slot<T>>)
    requires 0 <= k < |used|
    ensures |u| == |used| && u[|u| - 1] == used[k]
    ensures forall s :: s in u ==> s in used
    ensures forall s :: s in used ==> s in u
  {
    var u := used[..k] + used[k + 1..] + [used[k]];
    assert used == used[..k] + [used[k]] + used[k + 1..];
    u
  }

  lemma ViewSize<T>(used: seq<Slot<T>>, disk: seq<Block<T>>, view: seq<Block<T>>)
    requires Coherent(used, disk, view)
    ensures |view| == |disk|
  {
  }

  lemma SlotIsCurrent<T>(used: seq<Slot<T>>, disk: seq<Block<T>>, view: seq<Block<T>>, s: Slot<T>)
    requires Coherent(used, disk, view) && s in used
    ensures Current(s, view) && |view| == |disk|
  {
  }

  lemma RefreshedDistinct<T>(used: seq<Slot<T>>, k: int)
    requires 0 <= k < |used| && Distinct(used)
    ensures Distinct(Refreshed(used, k))
  {
    var u := Refreshed(used, k);
    forall i, j | 0 <= i < j < |u| ensures u[i].number != u[j].number {
      var i' := if i < k then i else i + 1;
      var j' := if j == |u| - 1 then k else if j < k then j else j + 1;
      assert u[i] == used[i'] && u[j] == used[j'];
    }
  }

  lemma RefreshedKeeps<T>(used: seq<Slot<T>>, k: int, disk: seq<Block<T>>, view: seq<Block<T>>)
    requires 0 <= k < |used| && Coherent(used, disk, view)
    ensures Coherent(Refreshed(used, k), disk, view)
    ensures forall b :: Cached(Refreshed(used, k), b) <==> Cached(used, b)
  {
    hide Current;
    var u := Refreshed(used, k);
    hide Refreshed;
    forall b ensures Cached(u, b) <==> Cached(used, b) {
    }
  }

  /** What is written to block 0 is not accounted for. */
  lemma PutControl<T>(used: seq<Slot<T>>, disk: seq<Block<T>>, view: seq<Block<T>>, block: Block<T>)
    requires Coherent(used, disk, view) && |disk| > 0
    ensures Coherent(used, disk[0 := block], view)
  {
    var d := disk[0 := block];
    forall b | 0 < b < |d| && !Cached(used, b) ensures d[b] == view[b] {
      assert disk[b] == view[b];
    }
  }

  /** Writing the oldest buffer back and dropping it changes nothing that is seen. */
  lemma EvictKeeps<T>(used: seq<Slot<T>>, disk: seq<Block<T>>, view: seq<Block<T>>)
    requires used != [] && Distinct(used) && Coherent(used, disk, view) && Current(used[0], view)
    ensures var d := disk[used[0].number := used[0].block];
      Distinct(used[1..]) && Coherent(used[1..], d, view) && !Cached(used[1..], used[0].number)
    ensures forall b :: Cached(used[1..], b) ==> Cached(used, b)
  {
    var u, d := used[1..], disk[used[0].number := used[0].block];
    assert used == [used[0]] + u;
    forall s | s in u ensures s in used && s.number != used[0].number {
      var j :| 0 <= j < |u| && u[j] == s;
      assert used[j + 1] == s;
    }
    forall b | 0 < b < |d| && !Cached(u, b) ensures d[b] == view[b] {
      if b != used[0].number {
        assert !Cached(used, b);
      }
    }
  }

  /** Loading a block that is not cached changes nothing that is seen. */
  lemma LoadKeeps<T>(used: seq<Slot<T>>, disk: seq<Block<T>>, view: seq<Block<T>>, b: int, dirty: bool)
    requires Distinct(used) && Coherent(used, disk, view) && 0 <= b < |disk| && !Cached(used, b)
    ensures var u := used + [Slot(b, disk[b], dirty)]; Distinct(u) && Coherent(u, disk, view)
    ensures forall c :: Cached(used + [Slot(b, disk[b], dirty)], c) ==> c == b || Cached(used, c)
  {
    var u := used + [Slot(b, disk[b], dirty)];
    forall j, k | 0 <= j < k < |u| ensures u[j].number != u[k].number {
      assert u[j] in used;
    }
    forall c | Cached(used, c) ensures Cached(u, c) {
      var s :| s in used && s.number == c;
      assert s in u;
    }
    assert Current(Slot(b, disk[b], dirty), view);
    forall c | 0 < c < |disk| && !Cached(u, c) ensures disk[c] == view[c] {
      assert !Cached(used, c);
    }
  }

  /** Whatever is written to disk for a cached block changes nothing that is seen. */
  lemma PutKeeps<T>(used: seq<Slot<T>>, disk: seq<Block<T>>, view: seq<Block<T>>, s: Slot<T>, x: Block<T>)
    requires Coherent(used, disk, view) && s in used
    ensures 0 <= s.number < |disk| && Coherent(used, disk[s.number := x], view)
  {
    assert Current(s, view);
    var d := disk[s.number := x];
    forall b | 0 < b < |d| && !Cached(used, b) ensures d[b] == view[b] {
    }
  }

  /** The view after a block is split: the upper half goes to a new last block, linked in after it. */
  ghost function SplitView<T>(view: seq<Block<T>>, b: int): (w: seq<Block<T>>)
    requires 0 < b < |view| && 0 <= view[b].next < |view| && view[b].next != b
    ensures |w| == |view| + 1
  {
    var n, x := |view|, view[b];
    var h := |x.items| - |x.items| / 2;
    var w := view[b := Block(x.prev, n, x.items[..h])] + [Block(b, x.next, x.items[h..])];
    if x.next == 0 then w else w[x.next := w[x.next].(prev := n)]
  }

  /** A new last block with a buffer of its own. */
  lemma AppendKeeps<T>(used: seq<Slot<T>>, disk: seq<Block<T>>, view: seq<Block<T>>, x: Block<T>, s: Slot<T>)
    requires Distinct(used) && Coherent(used, disk, view) && s.number == |disk|
    ensures Distinct(used + [s]) && Coherent(used + [s], disk + [x], view + [s.block])
  {
    var u, d, v := used + [s], disk + [x], view + [s.block];
    forall t | t in u ensures Current(t, v) {
      assert t in used ==> Current(t, view);
    }
    forall j, k | 0 <= j < k < |u| ensures u[j].number != u[k].number {
      assert u[j] in used && Current(u[j], view);
    }
    forall b | Cached(used, b) ensures Cached(u, b) {
      var t :| t in used && t.number == b;
      assert t in u;
    }
    forall b | 0 < b < |d| && !Cached(u, b) ensures d[b] == v[b] {
      assert s in u;
    }
  }

  /** Changing what a cached block holds changes what is seen of that block and of no other. */
  lemma WriteKeeps<T>(used: seq<Slot<T>>, disk: seq<Block<T>>, view: seq<Block<T>>, k: int, s: Slot<T>)
    requires Distinct(used) && Coherent(used, disk, view) && 0 <= k < |used| && s.number == used[k].number
    ensures Distinct(used[k := s]) && 0 <= s.number < |view| && Coherent(used[k := s], disk, view[s.number := s.block])
  {
    var u := used[k := s];
    SlotIsCurrent(used, disk, view, used[k]);
    var v := view[s.number := s.block];
    forall t | t in u ensures Current(t, v) {
      var j :| 0 <= j < |u| && u[j] == t;
      if j != k {
        assert used[j] in used && Current(used[j], view);
      }
    }
    forall b | Cached(used, b) ensures Cached(u, b) {
      var t :| t in used && t.number == b;
      var j :| 0 <= j < |used| && used[j] == t;
      assert u[j] in u;
    }
    forall b | 0 < b < |disk| && !Cached(u, b) ensures disk[b] == v[b] {
      assert u[k] in u;
    }
  }

  lemma WriteFits<T>(used: seq<Slot<T>>, k: int, s: Slot<T>, max: int, full: int)
    requires Distinct(used) && UsedFits(used, max, full) && 0 <= k < |used| && s.number == used[k].number
    requires forall t :: t in used ==> t.number >= 0
    requires |s.block.items| > max ==> full == -1 || full == s.number
    ensures UsedFits(used[k := s], max,
      if |s.block.items| > max then s.number else if full == s.number then -1 else full)
  {
    var u := used[k := s];
    forall j | 0 <= j < |u| && j != k ensures u[j] in used && u[j].number != s.number {
      assert u[j] == used[j];
    }
  }

  lemma FewCached<T>(used: seq<Slot<T>>, disk: seq<Block<T>>, view: seq<Block<T>>)
    requires Distinct(used) && Coherent(used, disk, view) && disk != [] && !Cached(used, 0)
    ensures |used| < |disk|
  {
    forall k | 0 <= k < |used| ensures 1 <= used[k].number < |disk| {
      assert Current(used[k], view);
    }
    Pigeonhole(used, 1, |disk|);
  }

  class BlockCache<T> {
    const maxItems: int
    var free: seq<Slot<T>>
    var used: seq<Slot<T>>
    var disk: seq<Block<T>>
    /** What every block number at least 1 stands for. */
    ghost var view: seq<Block<T>>
    /** The block that may just now hold one item too many, -1 for none. */
    ghost var full: int
    /** Block 0 still holds the control data of the file, which is not a block of items. */
    ghost var control: bool
    var lastBlock: int

    /** Everything but the number of buffers. */
    ghost predicate Sound()
      reads this
    {
      && |disk| >= 1 && maxItems >= 0 && (forall s :: s in free ==> s == EmptySlot())
      && Distinct(used) && Coherent(used, disk, view)
      && DiskFits(disk, maxItems) && UsedFits(used, maxItems, full)
      && (control ==> !Cached(used, 0))
    }

    ghost predicate Valid()
      reads this
    {
      Sound() && |free| + |used| == BLOCK_CACHE_SIZE
    }

    /** The most recently used block. */
    ghost predicate Last(b: int)
      reads this
    {
      used != [] && used[|used| - 1].number == b
    }

    /** Every used buffer is marked dirty. */
    ghost predicate AllDirty()
      reads this
    {
      forall s :: s in used ==> s.dirty
    }

    lemma LastIsCached(b: int)
      requires Last(b)
      ensures Cached(used, b)
    {
      assert used[|used| - 1] in used;
    }

    constructor (maxItems: int)
      requires maxItems >= 0
      ensures Valid() && full == -1 && control && AllDirty() && used == [] && this.maxItems == maxItems
      ensures |disk| == 1 && lastBlock == 0
    {
      this.maxItems := maxItems;
      free := seq(BLOCK_CACHE_SIZE, i => EmptySlot());
      used := [];
      disk := [Block(0, 0, [])];
      view := [Block(0, 0, [])];
      full, control, lastBlock := -1, true, 0;
    }

    /** The buffer holding a block, searched from the most recent; -1 when there is none. */
    method FindUsed(b: int) returns (k: int)
      ensures -1 <= k < |used|
      ensures k >= 0 ==> used[k].number == b
      ensures k < 0 ==> !Cached(used, b)
    {
      k := |used| - 1;
      while k >= 0 && used[k].number != b
        invariant -1 <= k < |used|
        invariant forall j :: k < j < |used| ==> used[j].number != b
      {
        k := k - 1;
      }
    }

    /** putFileBlock */
    method Put(slot: Slot<T>)
      requires 0 <= slot.number < |disk|
      modifies this`disk, this`control
      ensures disk == old(disk)[slot.number := slot.block] && control == (old(control) && slot.number != 0)
    {
      disk := disk[slot.number := slot.block];
      control := control && slot.number != 0;
    }

    /** The oldest used buffer, its block written back. */
    method EvictOldest() returns (slot: Slot<T>)
      requires Sound() && used != []
      requires full == -1 || used[0].number != full
      modifies this`used, this`disk, this`control
      ensures Sound() && slot == old(used)[0] && used == old(used)[1..]
      ensures 0 <= slot.number < |disk| == old(|disk|) && control == (old(control) && slot.number != 0)
      ensures disk == old(disk)[slot.number := slot.block]
      ensures forall b :: Cached(used, b) ==> Cached(old(used), b)
    {
      hide Distinct, Coherent;
      slot := used[0];
      SlotIsCurrent(used, disk, view, slot);
      hide Current;
      EvictKeeps(used, disk, view);
      Put(slot);
      used := used[1..];
    }

    /** A buffer to reuse, its old block written back even if it is a free one, whose block number is 0. */
    method GiveUp() returns (slot: Slot<T>)
      requires Valid() && full == -1
      modifies this`free, this`used, this`disk, this`control
      ensures Sound() && |free| + |used| == BLOCK_CACHE_SIZE - 1 && |disk| == old(|disk|)
      ensures forall k :: 0 <= k < old(|used|) && (k != 0 || old(free) != []) ==> old(used)[k] in used
      ensures forall s :: s in used ==> s in old(used)
      ensures (old(free) != [] ==> !control) && (control ==> old(control))
      ensures used == if old(free) != [] then old(used) else old(used)[1..]
      ensures forall b :: Cached(used, b) ==> Cached(old(used), b)
    {
      hide Distinct, Coherent;
      if free != [] {
        slot := free[0];
        assert slot in free && free == [slot] + free[1..];
        free := free[1..];
        assert slot.number == 0;
        PutControl(used, disk, view, slot.block);
        Put(slot);
        assert Coherent(used, disk, view);
        assert DiskFits(disk, maxItems);
        assert forall s :: s in free ==> s in old(free);
      } else {
        assert used[0] in used;
        slot := EvictOldest();
        assert forall k :: 0 < k < old(|used|) ==> old(used)[k] == used[k - 1];
      }
    }

    /** Read a block that is not cached into a buffer. */
    method Load(b: int)
      requires Sound() && 0 <= b < |disk| && !Cached(used, b) && (b == 0 ==> !control)
      modifies this`used
      ensures Sound() && used == old(used) + [Slot(b, disk[b], true)]
      ensures forall c :: Cached(used, c) ==> c == b || Cached(old(used), c)
    {
      hide Distinct, Coherent;
      LoadKeeps(used, disk, view, b, true);
      used := used + [Slot(b, disk[b], true)];
    }

    /**
     getIndexBlock: from the cache if possible; otherwise a buffer is written back and refilled. When there is no
     such block to read, the buffer is lost.
     */
    method GetIndexBlock(b: int) returns (ok: bool)
      requires Valid() && full == -1
      requires b == 0 && control ==> |disk| < BLOCK_CACHE_SIZE
      modifies this`free, this`used, this`disk, this`control
      ensures |disk| == old(|disk|) && (ok <==> 0 <= b < |disk|)
      ensures Sound() && |free| + |used| == if ok then 9 else 8
      ensures ok ==> Last(b)
      ensures (control ==> old(control)) && (b == 0 && ok ==> !control)
      ensures forall k :: 0 <= k < old(|used|) && (k != 0 || old(free) != []) ==> old(used)[k] in used
      ensures old(AllDirty()) ==> AllDirty()
      ensures forall c :: Cached(used, c) ==> c == b || Cached(old(used), c)
      ensures Cached(old(used), b) ==> free == old(free) && disk == old(disk)
      ensures Cached(old(used), b) ==> exists k :: 0 <= k < old(|used|) && used == Refreshed(old(used), k)
      ensures ok && !Cached(old(used), b) ==>
        used == (if old(free) != [] then old(used) else old(used)[1..]) + [Slot(b, disk[b], true)]
    {
      hide Distinct, Coherent, Current;
      var k := FindUsed(b);
      if k >= 0 {
        InUsed(used, k);
        SlotIsCurrent(used, disk, view, used[k]);
        RefreshedDistinct(used, k);
        RefreshedKeeps(used, k, disk, view);
        used := Refreshed(used, k);
        return true;
      }
      if b == 0 {
        FewCached(used, disk, view);
      }
      var slot := GiveUp();
      ok := 0 <= b < |disk|;
      if ok {
        Load(b);
      }
    }

    /** appendFileBlock: the number of the new block is its place in the file. */
    method Append(block: Block<T>) returns (b: int)
      modifies this`disk
      ensures b == old(|disk|) && disk == old(disk) + [block]
    {
      b := |disk|;
      disk := disk + [block];
    }

    /** A buffer for a new block; only a used one is written back. */
    method TakeForNew() returns (slot: Slot<T>)
      requires Valid() && (free == [] ==> full == -1 || used[0].number != full)
      modifies this`free, this`used, this`disk, this`control
      ensures Sound() && |free| + |used| == BLOCK_CACHE_SIZE - 1 && |disk| == old(|disk|)
      ensures forall k :: 0 <= k < old(|used|) && (k != 0 || old(free) != []) ==> old(used)[k] in used
      ensures forall s :: s in used ==> s in old(used)
      ensures |slot.block.items| <= maxItems && (control ==> old(control))
      ensures used == if old(free) != [] then old(used) else old(used)[1..]
      ensures slot == if old(free) != [] then Slot(0, Block(0, 0, []), false) else old(used)[0]
    {
      hide Distinct, Coherent, DiskFits;
      if free != [] {
        slot := free[0];
        assert slot in free && free == [slot] + free[1..];
        free := free[1..];
        assert forall s :: s in free ==> s in old(free);
      } else {
        assert used[0] in used;
        slot := EvictOldest();
        assert forall k :: 0 < k < old(|used|) ==> old(used)[k] == used[k - 1];
      }
    }

    /** The buffer, its list cleared, stands for the new last block; what it held before was appended to the file. */
    method Adopt(slot: Slot<T>)
      requires |disk| > 1 && disk[|disk| - 1] == slot.block && |slot.block.items| <= maxItems
      requires forall s :: s in free ==> s == EmptySlot()
      requires Distinct(used) && Coherent(used, disk[..|disk| - 1], view) && maxItems >= 0
      requires DiskFits(disk[..|disk| - 1], maxItems) && UsedFits(used, maxItems, full)
      requires control ==> !Cached(used, 0)
      modifies this`used, this`view
      ensures Sound() && view == old(view) + [slot.block.(items := [])]
      ensures used == old(used) + [slot.(number := |disk| - 1, block := slot.block.(items := []))]
    {
      hide Distinct, Coherent, Current;
      var s := slot.(number := |disk| - 1, block := slot.block.(items := []));
      AppendKeeps(used, disk[..|disk| - 1], view, slot.block, s);
      assert disk == disk[..|disk| - 1] + [slot.block];
      forall b | 0 <= b < |disk| ensures |disk[b].items| <= maxItems {
        assert b < |disk| - 1 ==> disk[b] == disk[..|disk| - 1][b];
      }
      view := view + [s.block];
      used := used + [s];
    }

    /**
     getNewBlock: append what the buffer holds as a new block; the buffer then stands for that block, its list
     empty.
     */
    method GetNewBlock(b: int) returns (ok: bool)
      requires Valid() && (free == [] ==> full == -1 || used[0].number != full)
      modifies this`free, this`used, this`disk, this`view, this`control
      ensures ok <==> b == old(|disk|)
      ensures ok ==> Valid() && Last(b) && |disk| == b + 1 == |view|
      ensures ok ==> view[..b] == old(view) && view[b].items == []
      ensures ok ==> forall k :: 0 <= k < old(|used|) && (k != 0 || old(free) != []) ==> old(used)[k] in used
      ensures ok ==> used == (if old(free) != [] then old(used) else old(used)[1..]) + [used[|used| - 1]]
      ensures ok ==> used[|used| - 1] == if old(free) != [] then Slot(b, Block(0, 0, []), false)
        else Slot(b, old(used)[0].block.(items := []), old(used)[0].dirty)
      ensures ok && old(AllDirty()) ==> forall s :: s in used && s.number != b ==> s.dirty
      ensures control ==> old(control)
    {
      hide Distinct, Coherent, Current, DiskFits, UsedFits;
      var slot := TakeForNew();
      ghost var d := disk;
      ViewSize(used, disk, view);
      var n := Append(slot.block);
      assert disk[..|disk| - 1] == d;
      if n != b {
        return false;
      }
      Adopt(slot);
      return true;
    }

    /** What a cached block holds. */
    method BlockAt(b: int) returns (block: Block<T>)
      requires Sound() && Cached(used, b)
      ensures b != 0 ==> 0 < b < |view| && block == view[b]
      ensures b != full ==> |block.items| <= maxItems
    {
      var k := FindUsed(b);
      block := used[k].block;
    }

    /** Change what a cached block holds, and mark it dirty or leave its mark as it is. */
    method Write(b: int, block: Block<T>, mark: bool) returns (ghost k: int)
      requires Sound() && Cached(used, b)
      requires |block.items| > maxItems ==> full == -1 || full == b
      modifies this`used, this`view, this`full
      ensures 0 <= k < |used| == old(|used|) && old(used)[k].number == b
      ensures used == old(used)[k := Slot(b, block, mark || old(used)[k].dirty)]
      ensures 0 <= b < |view| == old(|view|) && Sound() && view == old(view)[b := block]
      ensures full == if |block.items| > maxItems then b else if old(full) == b then -1 else old(full)
    {
      hide Distinct, Coherent, UsedFits;
      var i := FindUsed(b);
      k := i;
      var s := Slot(b, block, mark || used[i].dirty);
      WriteKeeps(used, disk, view, i, s);
      forall t | t in used ensures t.number >= 0 {
        SlotIsCurrent(used, disk, view, t);
      }
      WriteFits(used, i, s, maxItems, full);
      used := used[i := s];
      view := view[b := block];
      full := if |block.items| > maxItems then b else if full == b then -1 else full;
    }

    /** putFileBlock for a cached block. */
    method PutCached(b: int)
      requires Sound() && 0 < b && Cached(used, b) && full != b
      modifies this`disk, this`control
      ensures Sound() && |disk| == old(|disk|) && control == old(control)
    {
      hide Distinct, Coherent, Current;
      var k := FindUsed(b);
      PutKeeps(used, disk, view, used[k], used[k].block);
      Put(used[k]);
    }

    /**
     The new block put where the items have no size yet, as they have not in a buffer that was free before: the
     header is written, but in place of the items whatever is in the room for them.
     */
    method PutUnfilled(n: int)
      requires Sound() && 0 < n && Cached(used, n) && full != n
      modifies this`disk, this`control
      ensures Sound() && |disk| == old(|disk|) && control == old(control)
    {
      hide Distinct, Coherent, Current;
      var k := FindUsed(n);
      var room: seq<T> := *;
      if |room| != |used[k].block.items| {
        room := used[k].block.items;
      }
      var x := used[k].block.(items := room);
      PutKeeps(used, disk, view, used[k], x);
      Put(used[k].(block := x));
    }

    /** Half of the list, rounded down, moves link by link from its end to the front of a new list. */
    method Halve(items: seq<T>) returns (bottom: seq<T>, top: seq<T>)
      ensures bottom + top == items && |top| == |items| / 2
    {
      bottom, top := items, [];
      var num := |items| / 2;
      while num > 0
        invariant 0 <= num <= |bottom| && |top| + num == |items| / 2
        invariant bottom + top == items
      {
        top := [bottom[|bottom| - 1]] + top;
        bottom := bottom[..|bottom| - 1];
        num := num - 1;
      }
    }

    /** The lists of a block and of the new last block, both written to disk. */
    method MoveUpper(b: int, n: int)
      requires Valid() && 0 < b < n && Cached(used, b) && Cached(used, n) && (full == -1 || full == b)
      requires n < |view| && view[n].items == [] && 2 <= |view[b].items| <= maxItems + 1
      modifies this`used, this`view, this`full, this`disk, this`control
      ensures Valid() && full == -1 && |disk| == old(|disk|) && control == old(control)
      ensures |used| == old(|used|) && forall k :: 0 <= k < |used| ==> used[k].number == old(used)[k].number
      ensures forall k :: 0 <= k < |used| ==> used[k].dirty == old(used)[k].dirty
      ensures |view| == old(|view|) && forall c :: 0 <= c < |view| && c != b && c != n ==> view[c] == old(view)[c]
      ensures view[b].prev == old(view)[b].prev && view[b].items + view[n].items == old(view)[b].items
      ensures |view[n].items| == old(|view[b].items|) / 2
    {
      hide Distinct, Coherent, Current, DiskFits, UsedFits;
      var x := BlockAt(b);
      var bottom, top := Halve(x.items);
      ghost var k := Write(b, x.(items := bottom), false);
      StillCached(old(used), used, n);
      var y := BlockAt(n);
      ghost var j := Write(n, y.(items := top), false);
      StillCached(old(used), used, b);
      StillCached(old(used), used, n);
      PutCached(b);
      PutUnfilled(n);
    }

    /**
     Set the prev link of the block after the new one, which may have to be loaded; after the last block it is block
     0.
     */
    method LinkBack(next: int, n: int)
      requires Valid() && full == -1 && 0 <= next < |disk|
      requires next == 0 && control ==> |disk| < BLOCK_CACHE_SIZE
      modifies this`free, this`used, this`view, this`full, this`disk, this`control
      ensures Valid() && full == -1 && |disk| == old(|disk|)
      ensures (control ==> old(control)) && (next == 0 ==> !control)
      ensures |view| == old(|view|) && forall c :: 0 < c < |view| && c != next ==> view[c] == old(view)[c]
      ensures 0 < next ==> view[next] == old(view)[next].(prev := n)
      ensures forall k :: 0 <= k < old(|used|) && (k != 0 || old(free) != []) ==> Cached(used, old(used)[k].number)
      ensures old(AllDirty()) ==> AllDirty()
    {
      hide Distinct, Coherent, Current, DiskFits;
      var ok := GetIndexBlock(next);
      ghost var u := used;
      var x := BlockAt(next);
      assert |x.items| <= maxItems;
      ghost var k := Write(next, x.(prev := n), false);
      forall i | 0 <= i < old(|used|) && (i != 0 || old(free) != []) ensures Cached(used, old(used)[i].number) {
        StillCached(u, used, old(used)[i].number);
      }
      if old(AllDirty()) {
        WriteDirty(u, used, k);
      }
    }

    /** The first half of splitBlock: get a new block and share the items out. */
    method SplitLists(b: int) returns (n: int)
      requires Valid() && Last(b) && (full == -1 || full == b) && 0 < b < lastBlock + 1 == |disk| == |view|
      requires 2 <= |view[b].items| <= maxItems + 1
      modifies this
      ensures Valid() && full == -1 && n == old(|disk|) && lastBlock + 1 == |disk| == |view| == n + 1
      ensures forall c :: 0 <= c < n && c != b ==> view[c] == old(view)[c]
      ensures view[b].prev == old(view)[b].prev && view[b].items + view[n].items == old(view)[b].items
      ensures |view[n].items| == old(|view[b].items|) / 2
      ensures |used| > 1 && used[|used| - 2].number == b && used[|used| - 1].number == n
      ensures (control ==> old(control))
      ensures old(AllDirty()) ==> forall s :: s in used && s.number != n ==> s.dirty
    {
      hide Distinct, Coherent, Current, DiskFits, UsedFits;
      n := lastBlock + 1;
      if free == [] {
        LastNotFirst(used, disk, view);
      }
      ghost var v := view;
      var ok := GetNewBlock(n);
      lastBlock := n;
      assert forall c :: 0 <= c < n ==> view[c] == view[..n][c];
      assert used[|used| - 2] in used && used[|used| - 1] in used;
      ghost var u := used;
      MoveUpper(b, n);
      forall s | s in used && s.number != n && old(AllDirty()) ensures s.dirty {
        var k :| 0 <= k < |used| && used[k] == s;
        assert u[k] in u;
      }
    }

    /** The header links of the two halves. */
    method WriteLinks(b: int, n: int, next: int)
      requires Valid() && full == -1 && 0 < b < n < |view| && Cached(used, b) && Cached(used, n)
      modifies this`used, this`view, this`full
      ensures Valid() && full == -1
      ensures |view| == old(|view|)
      ensures view == old(view)[n := old(view)[n].(prev := b, next := next)][b := old(view)[b].(next := n)]
      ensures |used| == old(|used|) && forall k :: 0 <= k < |used| ==> used[k].number == old(used)[k].number
      ensures (forall s :: s in old(used) && s.number != n ==> s.dirty) ==> AllDirty()
    {
      hide Distinct, Coherent, Current, DiskFits, UsedFits;
      ghost var u0 := used;
      var z := BlockAt(n);
      ghost var k := Write(n, z.(prev := b, next := next), true);
      ghost var u1 := used;
      StillCached(u0, used, b);
      var y := BlockAt(b);
      ghost var j := Write(b, y.(next := n), false);
      if forall s :: s in u0 && s.number != n ==> s.dirty {
        TwoWritesDirty(u0, u1, used, k, j, n);
      }
    }

    /** The second half of splitBlock: the links of the two blocks and of the block after them. */
    method SetLinks(b: int, n: int, next: int)
      requires Valid() && full == -1 && 0 < b < n < |disk| == |view| && 0 <= next < n && next != b
      requires |used| > 1 && used[|used| - 2].number == b && used[|used| - 1].number == n
      requires next == 0 && control ==> |disk| < BLOCK_CACHE_SIZE
      modifies this`free, this`used, this`view, this`full, this`disk, this`control
      ensures Valid() && full == -1 && |disk| == old(|disk|) == |view|
      ensures view[b] == Block(old(view)[b].prev, n, old(view)[b].items)
      ensures view[n] == Block(b, next, old(view)[n].items)
      ensures forall c :: 0 < c < |view| && c != b && c != n && c != next ==> view[c] == old(view)[c]
      ensures 0 < next ==> view[next] == old(view)[next].(prev := n)
      ensures Cached(used, b) && Cached(used, n)
      ensures (control ==> old(control)) && (next == 0 ==> !control)
      ensures (forall s :: s in old(used) && s.number != n ==> s.dirty) ==> AllDirty()
    {
      hide Distinct, Coherent, Current, DiskFits, UsedFits, Cached;
      InUsed(used, |used| - 2);
      InUsed(used, |used| - 1);
      WriteLinks(b, n, next);
      LinkBack(next, n);
    }

    /** splitBlock: the upper half of block b goes to a new last block, linked in after b. */
    method SplitBlock(b: int) returns (n: int)
      requires Valid() && Last(b) && (full == -1 || full == b) && 0 < b < lastBlock + 1 == |disk| == |view|
      requires 2 <= |view[b].items| <= maxItems + 1 && 0 <= view[b].next < |view| && view[b].next != b
      requires view[b].next == 0 && control ==> |disk| + 1 < BLOCK_CACHE_SIZE
      modifies this
      ensures Valid() && full == -1 && n == old(|disk|) && lastBlock + 1 == |disk| == |view|
      ensures view[1..] == SplitView(old(view), b)[1..]
      ensures Cached(used, b) && Cached(used, n)
      ensures (control ==> old(control)) && (old(view)[b].next == 0 ==> !control)
      ensures old(AllDirty()) ==> AllDirty()
    {
      hide Distinct, Coherent, Current, DiskFits, UsedFits;
      assert used[|used| - 1] in used;
      var x := BlockAt(b);
      ghost var v0 := view;
      n := SplitLists(b);
      ghost var v1 := view;
      SetLinks(b, n, x.next);
      SplitResult(v0, v1, view, b);
    }

    /** Write one dirty buffer and mark it clean. */
    method FlushOne(i: int)
      requires Valid() && full == -1 && 0 <= i < |used|
      modifies this`used, this`disk, this`control
      ensures Valid() && 0 <= old(used)[i].number < |disk| == old(|disk|) && (control ==> old(control))
      ensures used == old(used)[i := old(used)[i].(dirty := false)]
      ensures disk == old(disk)[old(used)[i].number := old(used)[i].block]
    {
      hide Distinct, Coherent;
      var s := used[i];
      SlotIsCurrent(used, disk, view, s);
      PutKeeps(used, disk, view, s, s.block);
      Put(s);
      CleanKeeps(used, disk, view, i, maxItems);
      used := used[i := s.(dirty := false)];
    }

    /** flushIndexBlocks: every dirty buffer is written and marked clean. */
    method FlushIndexBlocks()
      requires Valid() && full == -1
      modifies this`used, this`disk, this`control
      ensures Valid() && (control ==> old(control))
      ensures used == Cleaned(old(used), |old(used)|)
      ensures |disk| == old(|disk|) && disk == Flushed(old(used), old(disk), |old(used)|)
    {
      hide Distinct, Coherent;
      ghost var u, d, p := used, disk, 0;
      var i := 0;
      assert used == Cleaned(u, 0);
      while i < |used|
        invariant Valid() && full == -1 && |used| == |u| && |disk| == |d| && (control ==> old(control))
        invariant 0 <= i <= p <= i + 1 && p <= |u| && used == Cleaned(u, p) && disk == Flushed(u, d, p)
        decreases |used| - i, |used| - p
      {
        if !used[i].dirty {
          i := i + 1;
          if p < i {
            assert Cleaned(u, i) == Cleaned(u, p);
          }
          p := i;
        } else {
          FlushOne(i);
          p := p + 1;
        }
      }
    }
  }

  /** A buffer stands for block b with this dirty mark. */
  ghost predicate Marked<T>(used: seq<Slot<T>>, b: int, dirty: bool) {
    exists s :: s in used && s.number == b && s.dirty == dirty
  }

  /** The same blocks are cached with the same dirty marks. */
  ghost predicate SameMarks<T>(u: seq<Slot<T>>, v: seq<Slot<T>>) {
    forall b, dirty :: Marked(u, b, dirty) <==> Marked(v, b, dirty)
  }

  /** Using a cached block again and changing its list leave the marks alone. */
  lemma MarksKept<T>(u: seq<Slot<T>>, k: int, j: int, s: Slot<T>)
    requires 0 <= k < |u| && 0 <= j < |u|
    requires s.number == Refreshed(u, k)[j].number && s.dirty == Refreshed(u, k)[j].dirty
    ensures SameMarks(u, Refreshed(u, k)[j := s])
  {
    var v := Refreshed(u, k);
    hide Refreshed;
    var w := v[j := s];
    forall b, dirty ensures Marked(u, b, dirty) <==> Marked(w, b, dirty) {
      if Marked(u, b, dirty) {
        var r :| r in u && r.number == b && r.dirty == dirty;
        assert r in v;
        var i :| 0 <= i < |v| && v[i] == r;
        assert w[i] in w;
      }
      if Marked(w, b, dirty) {
        var r :| r in w && r.number == b && r.dirty == dirty;
        var i :| 0 <= i < |w| && w[i] == r;
        assert v[i] in v && v[i] in u;
      }
    }
  }

  /** The buffers after the first n have been flushed. */
  ghost function Cleaned<T>(used: seq<Slot<T>>, n: int): (u: seq<Slot<T>>)
    requires 0 <= n <= |used|
    ensures |u| == |used|
  {
    seq(|used|, k requires 0 <= k < |used| => if k < n then used[k].(dirty := false) else used[k])
  }

  /** The disk after the first n buffers have been flushed: the clean ones are skipped. */
  ghost function Flushed<T>(used: seq<Slot<T>>, disk: seq<Block<T>>, n: int): (d: seq<Block<T>>)
    requires 0 <= n <= |used|
    ensures (forall k :: 0 <= k < |used| ==> 0 <= used[k].number < |disk|) ==> |d| == |disk|
  {
    if n == 0 then disk
    else
      var d := Flushed(used, disk, n - 1);
      if used[n - 1].dirty && 0 <= used[n - 1].number < |d| then d[used[n - 1].number := used[n - 1].block] else d
  }

  /** What is on disk after a flush: the block of every dirty buffer, and otherwise what was there. */
  lemma {:induction false} FlushedAt<T>(used: seq<Slot<T>>, disk: seq<Block<T>>, n: int, b: int)
    requires 0 <= n <= |used| && Distinct(used) && 0 <= b < |disk|
    requires forall k :: 0 <= k < |used| ==> 0 <= used[k].number < |disk|
    ensures forall k :: 0 <= k < n && used[k].number == b ==>
      Flushed(used, disk, n)[b] == if used[k].dirty then used[k].block else disk[b]
    ensures (forall k :: 0 <= k < n ==> used[k].number != b) ==> Flushed(used, disk, n)[b] == disk[b]
  {
    if n > 0 {
      FlushedAt(used, disk, n - 1, b);
    }
  }

  /**
   A flush makes the disk equal to what is seen through the cache if and only if every clean buffer
   already agrees with the disk: changes to a clean buffer are not written.
   */
  lemma FlushExact<T>(used: seq<Slot<T>>, disk: seq<Block<T>>, view: seq<Block<T>>)
    requires Distinct(used) && Coherent(used, disk, view)
    ensures forall k :: 0 <= k < |used| ==> 0 <= used[k].number < |disk|
    ensures |Flushed(used, disk, |used|)| == |view|
    ensures (forall b :: 0 < b < |disk| ==> Flushed(used, disk, |used|)[b] == view[b]) <==>
      (forall s :: s in used && s.number != 0 && !s.dirty ==> s.block == disk[s.number])
  {
    forall k | 0 <= k < |used| ensures Current(used[k], view) {
      assert used[k] in used;
    }
    var d := Flushed(used, disk, |used|);
    if forall s :: s in used && s.number != 0 && !s.dirty ==> s.block == disk[s.number] {
      forall b | 0 < b < |disk| ensures d[b] == view[b] {
        FlushedAt(used, disk, |used|, b);
        if Cached(used, b) {
          var s :| s in used && s.number == b;
          var k :| 0 <= k < |used| && used[k] == s;
          assert used[k].number == b;
        } else {
          forall k | 0 <= k < |used| ensures used[k].number != b {
            assert used[k] in used;
          }
        }
      }
    }
    if forall b :: 0 < b < |disk| ==> d[b] == view[b] {
      forall s | s in used && s.number != 0 && !s.dirty ensures s.block == disk[s.number] {
        var k :| 0 <= k < |used| && used[k] == s;
        FlushedAt(used, disk, |used|, s.number);
        assert used[k].number == s.number;
      }
    }
  }

  /** Clearing a dirty mark changes nothing that is seen. */
  lemma CleanKeeps<T>(used: seq<Slot<T>>, disk: seq<Block<T>>, view: seq<Block<T>>, i: int, max: int)
    requires Distinct(used) && Coherent(used, disk, view) && UsedFits(used, max, -1) && 0 <= i < |used|
    ensures var u := used[i := used[i].(dirty := false)];
      Distinct(u) && Coherent(u, disk, view) && UsedFits(u, max, -1) && forall b :: Cached(u, b) ==> Cached(used, b)
  {
    var s := used[i].(dirty := false);
    var u := used[i := s];
    SlotIsCurrent(used, disk, view, used[i]);
    WriteKeeps(used, disk, view, i, s);
    if s.number == 0 {
      Unaccounted(u, disk, view, s.block);
    } else {
      assert view[s.number := s.block] == view;
    }
    forall t | t in u ensures exists r :: r in used && r.number == t.number && r.block == t.block {
      var j :| 0 <= j < |u| && u[j] == t;
      assert used[j] in used && used[j].number == t.number && used[j].block == t.block;
    }
    forall t | t in u && t.number != -1 ensures |t.block.items| <= max {
      var r :| r in used && r.number == t.number && r.block == t.block;
    }
  }

  lemma Unaccounted<T>(used: seq<Slot<T>>, disk: seq<Block<T>>, view: seq<Block<T>>, block: Block<T>)
    requires |view| > 0 && Coherent(used, disk, view[0 := block])
    ensures Coherent(used, disk, view)
  {
    var v := view[0 := block];
    forall s | s in used ensures Current(s, view) {
      assert Current(s, v);
    }
    forall b | 0 < b < |disk| && !Cached(used, b) ensures disk[b] == view[b] {
      assert disk[b] == v[b];
    }
  }

  lemma LastNotFirst<T>(used: seq<Slot<T>>, disk: seq<Block<T>>, view: seq<Block<T>>)
    requires Distinct(used) && Coherent(used, disk, view) && |used| > 1
    ensures used[0].number >= 0 && used[0].number != used[|used| - 1].number
  {
    SlotIsCurrent(used, disk, view, used[0]);
  }

  lemma InUsed<T>(used: seq<Slot<T>>, k: int)
    requires 0 <= k < |used|
    ensures Cached(used, used[k].number)
  {
    assert used[k] in used;
  }

  lemma TwoWritesDirty<T>(u: seq<Slot<T>>, v: seq<Slot<T>>, w: seq<Slot<T>>, k: int, j: int, n: int)
    requires 0 <= k < |u| == |v| == |w| && 0 <= j < |v| && u[k].number == n
    requires forall s :: s in u && s.number != n ==> s.dirty
    requires Distinct(u) && v == u[k := v[k]] && v[k].dirty && w == v[j := w[j]] && w[j].dirty == v[j].dirty
    ensures forall s :: s in w ==> s.dirty
  {
    forall i | 0 <= i < |w| ensures w[i].dirty {
      assert i != k ==> u[i] in u && u[i].number != n;
    }
  }

  lemma SplitResult<T>(v0: seq<Block<T>>, v1: seq<Block<T>>, v: seq<Block<T>>, b: int)
    requires 0 < b < |v0| && |v| == |v1| == |v0| + 1 && 0 <= v0[b].next < |v0| && v0[b].next != b
    requires forall c :: 0 <= c < |v0| && c != b ==> v1[c] == v0[c]
    requires v1[b].items + v1[|v0|].items == v0[b].items && |v1[|v0|].items| == |v0[b].items| / 2
    requires v1[b].prev == v0[b].prev
    requires v[b] == Block(v1[b].prev, |v0|, v1[b].items) && v[|v0|] == Block(b, v0[b].next, v1[|v0|].items)
    requires forall c :: 0 < c < |v| && c != b && c != |v0| && c != v0[b].next ==> v[c] == v1[c]
    requires 0 < v0[b].next ==> v[v0[b].next] == v1[v0[b].next].(prev := |v0|)
    ensures v[1..] == SplitView(v0, b)[1..]
  {
    var n, x := |v0|, v0[b];
    var h := |x.items| - |x.items| / 2;
    assert x.items[..h] == v1[b].items && x.items[h..] == v1[n].items;
    var w := SplitView(v0, b);
    forall c | 0 < c < |v| ensures v[c] == w[c] {
    }
    assert forall c :: 0 <= c < |v| - 1 ==> v[1..][c] == v[c + 1] && w[1..][c] == w[c + 1];
  }

  lemma WriteDirty<T>(u: seq<Slot<T>>, used: seq<Slot<T>>, k: int)
    requires 0 <= k < |u| == |used| && (forall s :: s in u ==> s.dirty) && used == u[k := used[k]] && used[k].dirty
    ensures forall s :: s in used ==> s.dirty
  {
    forall s | s in used ensures s.dirty {
      var i :| 0 <= i < |used| && used[i] == s;
      assert i != k ==> u[i] in u;
    }
  }

  lemma StillCached<T>(old': seq<Slot<T>>, used: seq<Slot<T>>, b: int)
    requires Cached(old', b) && |used| == |old'|
    requires forall k :: 0 <= k < |used| ==> used[k].number == old'[k].number
    ensures Cached(used, b)
  {
    var s :| s in old' && s.number == b;
    var k :| 0 <= k < |old'| && old'[k] == s;
    assert used[k] in used;
  }
}
