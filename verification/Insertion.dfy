/** The final insertion sort of bqsort and the whole sort. */
module Insertion {
  import opened Order
  import opened Partition
  import opened Qsort

  /** The first element is at most every other. */
  ghost predicate LeastFirst<T>(cmp: (T, T) -> int, s: seq<T>) {
    s != [] && forall k :: 0 <= k < |s| ==> cmp(s[0], s[k]) <= 0
  }

  /** The index of a smallest element among the first thresh + 1. */
  method FindSmallest<T(!new)>(a: array<T>, thresh: int, cmp: (T, T) -> int) returns (tmp: int)
    requires TotalPreorder(cmp) && 0 <= thresh < a.Length
    ensures 0 <= tmp <= thresh && AtLeast(cmp, a[..], 0, thresh + 1, a[tmp])
  {
    hide TotalPreorder;
    tmp := 0;
    var run := 1;
    Flip(cmp, a[0], a[0]);
    while run <= thresh
      invariant 0 <= tmp < run <= thresh + 1
      invariant AtLeast(cmp, a[..], 0, run, a[tmp])
    {
      Flip(cmp, a[run], a[tmp]);
      if cmp(a[run], a[tmp]) < 0 {
        StillLeast(cmp, a[..], run, a[tmp], a[run]);
        tmp := run;
      }
      run := run + 1;
    }
  }

  /** Bring the smallest of the first MAX_THRESH + 1 elements to the front: it is the smallest of all. */
  method SmallestToFront<T(!new)>(a: array<T>, cmp: (T, T) -> int, ghost cut: int)
    requires TotalPreorder(cmp) && a.Length > 1
    requires CutAt(cmp, a[..], cut) && cut <= MAX_THRESH + 1
    modifies a
    ensures multiset(a[..]) == multiset(old(a[..])) && LeastFirst(cmp, a[..])
  {
    hide TotalPreorder, AtLeast, CutAt, LeastFirst;
    CutBounds(cmp, a[..], cut);
    var end := a.Length - 1;
    var thresh := if end < MAX_THRESH then end else MAX_THRESH;
    var tmp := FindSmallest(a, thresh, cmp);
    LeastOfAll(cmp, a[..], thresh + 1, tmp, cut);
    SwapMultiset(a[..], tmp, 0);
    if tmp != 0 {
      Swap(a, tmp, 0);
    } else {
      assert Swapped(a[..], tmp, 0) == a[..];
    }
  }

  lemma StillLeast<T(!new)>(cmp: (T, T) -> int, s: seq<T>, n: int, p: T, q: T)
    requires TotalPreorder(cmp) && AtLeast(cmp, s, 0, n, p) && n < |s| && q == s[n] && cmp(q, p) <= 0
    ensures AtLeast(cmp, s, 0, n + 1, q)
  {
    hide TotalPreorder;
    forall k | 0 <= k < n + 1 ensures cmp(q, s[k]) <= 0 {
      if k < n {
        Trans(cmp, q, p, s[k]);
      } else {
        Flip(cmp, q, q);
      }
    }
  }

  lemma LeastOfAll<T(!new)>(cmp: (T, T) -> int, s: seq<T>, n: int, tmp: int, cut: int)
    requires TotalPreorder(cmp) && 0 <= tmp < n <= |s| && AtLeast(cmp, s, 0, n, s[tmp])
    requires CutAt(cmp, s, cut) && cut <= n
    ensures LeastFirst(cmp, Swapped(s, tmp, 0))
  {
    hide TotalPreorder;
    forall k | 0 <= k < |s| ensures cmp(s[tmp], s[k]) <= 0 {
      if k >= n {
        Trans(cmp, s[tmp], s[0], s[k]);
      }
    }
  }

  /** s with the element at run moved down to tmp and those between shifted up. */
  function Rotated<T>(s: seq<T>, tmp: int, run: int): (t: seq<T>)
    requires 0 <= tmp <= run < |s|
    ensures |t| == |s| && t[tmp] == s[run] && t[run + 1..] == s[run + 1..]
    ensures multiset(t) == multiset(s)
  {
    assert s == s[..tmp] + s[tmp..run] + [s[run]] + s[run + 1..];
    s[..tmp] + [s[run]] + s[tmp..run] + s[run + 1..]
  }

  /** Shift a[tmp..run] up by one and put the old a[run] at tmp. */
  method Rotate<T>(a: array<T>, tmp: int, run: int)
    requires 0 <= tmp <= run < a.Length
    modifies a
    ensures a[..] == Rotated(old(a[..]), tmp, run)
  {
    hide Rotated;
    ghost var s := a[..];
    var c := a[run];
    var hi, lo := run, run - 1;
    while lo >= tmp
      invariant tmp <= hi <= run && lo == hi - 1
      invariant forall k :: 0 <= k < a.Length && !(hi < k <= run) ==> a[k] == s[k]
      invariant forall k :: hi < k <= run ==> a[k] == s[k - 1]
    {
      a[hi] := a[lo];
      hi := lo;
      lo := lo - 1;
    }
    a[hi] := c;
    RotatedAt(s, a[..], tmp, run);
  }

  lemma RotatedAt<T>(s: seq<T>, t: seq<T>, tmp: int, run: int)
    requires 0 <= tmp <= run < |s| == |t| && t[tmp] == s[run]
    requires forall k :: 0 <= k < |s| && !(tmp <= k <= run) ==> t[k] == s[k]
    requires forall k :: tmp < k <= run ==> t[k] == s[k - 1]
    ensures t == Rotated(s, tmp, run)
  {
  }

  /** Find the place for a[run] among the sorted elements below it. No bounds check: a[0] stops the scan. */
  method FindPlace<T(!new)>(a: array<T>, run: int, cmp: (T, T) -> int) returns (tmp: int)
    requires TotalPreorder(cmp) && 1 <= run < a.Length && LeastFirst(cmp, a[..])
    ensures 1 <= tmp <= run && cmp(a[tmp - 1], a[run]) <= 0
    ensures forall k :: tmp <= k < run ==> cmp(a[run], a[k]) < 0
  {
    hide TotalPreorder;
    tmp := run - 1;
    Flip(cmp, a[run], a[0]);
    while cmp(a[run], a[tmp]) < 0
      invariant 0 <= tmp < run
      invariant forall k :: tmp < k < run ==> cmp(a[run], a[k]) < 0
      decreases tmp
    {
      tmp := tmp - 1;
    }
    Flip(cmp, a[run], a[tmp]);
    Flip(cmp, a[tmp], a[run]);
    tmp := tmp + 1;
  }

  /** A sorted prefix stays sorted when the next element goes where FindPlace says. */
  lemma InsertKeepsSorted<T(!new)>(cmp: (T, T) -> int, s: seq<T>, tmp: int, run: int)
    requires TotalPreorder(cmp) && 1 <= tmp <= run < |s| && Sorted(cmp, s[..run])
    requires cmp(s[tmp - 1], s[run]) <= 0 && forall k :: tmp <= k < run ==> cmp(s[run], s[k]) < 0
    ensures Sorted(cmp, Rotated(s, tmp, run)[..run + 1])
  {
    hide TotalPreorder;
    var t := Rotated(s, tmp, run);
    forall i, j | 0 <= i < j < run + 1 ensures cmp(t[i], t[j]) <= 0 {
      var i' := if i < tmp then i else i - 1;
      var j' := if j < tmp then j else j - 1;
      if i != tmp && j != tmp {
        assert cmp(s[..run][i'], s[..run][j']) <= 0;
      } else if j == tmp {
        assert i == tmp - 1 || cmp(s[..run][i], s[..run][tmp - 1]) <= 0;
        if i != tmp - 1 {
          Trans(cmp, s[i], s[tmp - 1], s[run]);
        }
      }
    }
  }

  /** Insert a[run] into the sorted elements below it. */
  method InsertNext<T(!new)>(a: array<T>, run: int, cmp: (T, T) -> int)
    requires TotalPreorder(cmp) && 2 <= run < a.Length && LeastFirst(cmp, a[..]) && Sorted(cmp, a[..][..run])
    modifies a
    ensures LeastFirst(cmp, a[..]) && Sorted(cmp, a[..][..run + 1])
    ensures multiset(a[..]) == multiset(old(a[..]))
  {
    hide TotalPreorder, Sorted, LeastFirst;
    ghost var s := a[..];
    var tmp := FindPlace(a, run, cmp);
    InsertKeepsSorted(cmp, s, tmp, run);
    RotateKeepsLeast(cmp, s, tmp, run);
    if tmp != run {
      Rotate(a, tmp, run);
    } else {
      assert Rotated(s, tmp, run) == s;
    }
  }

  /** The insertion phase: needs only that the first element is the smallest. */
  method InsertionPhase<T(!new)>(a: array<T>, cmp: (T, T) -> int)
    requires TotalPreorder(cmp) && a.Length > 1 && LeastFirst(cmp, a[..])
    modifies a
    ensures Sorted(cmp, a[..]) && multiset(a[..]) == multiset(old(a[..]))
  {
    hide TotalPreorder, Sorted, LeastFirst;
    FirstTwoSorted(cmp, a[..]);
    var run := 2;
    while run <= a.Length - 1
      invariant 2 <= run <= a.Length && LeastFirst(cmp, a[..])
      invariant Sorted(cmp, a[..][..run])
      invariant multiset(a[..]) == multiset(old(a[..]))
    {
      InsertNext(a, run, cmp);
      run := run + 1;
    }
    assert a[..][..run] == a[..];
  }

  lemma FirstTwoSorted<T>(cmp: (T, T) -> int, s: seq<T>)
    requires LeastFirst(cmp, s) && |s| > 1
    ensures Sorted(cmp, s[..2])
  {
  }

  lemma RotateKeepsLeast<T>(cmp: (T, T) -> int, s: seq<T>, tmp: int, run: int)
    requires LeastFirst(cmp, s) && 1 <= tmp <= run < |s|
    ensures LeastFirst(cmp, Rotated(s, tmp, run))
  {
    var t := Rotated(s, tmp, run);
    forall k | 0 <= k < |t| ensures cmp(t[0], t[k]) <= 0 {
      assert t[k] in multiset(t);
      assert t[k] in multiset(s);
    }
  }

  /** bqsort: afterwards the array is sorted and holds exactly what it held. */
  method Bqsort<T(!new)>(a: array<T>, cmp: (T, T) -> int)
    requires TotalPreorder(cmp) && a.Length < 0x8000_0000
    modifies a
    ensures Sorted(cmp, a[..]) && multiset(a[..]) == multiset(old(a[..]))
  {
    hide TotalPreorder, LeastFirst;
    if a.Length <= 1 {
      return;
    }
    ghost var cut := a.Length;
    if a.Length > MAX_THRESH {
      cut := PartitionPhase(a, cmp);
    }
    SmallestToFront(a, cmp, cut);
    InsertionPhase(a, cmp);
  }
}
