/** The partitioning step of bqsort: median of three and collapsing walls. */
module Partition {
  import opened Order

  method Swap<T>(a: array<T>, i: int, j: int)
    requires 0 <= i < a.Length && 0 <= j < a.Length
    modifies a
    ensures a[..] == Swapped(old(a[..]), i, j)
  {
    a[i], a[j] := a[j], a[i];
  }

  /** Exchange a[i] and a[j] when the second is below the first. */
  method OrderPair<T(!new)>(a: array<T>, i: int, j: int, ghost lo: int, ghost hi: int, cmp: (T, T) -> int)
    returns (moved: bool)
    requires TotalPreorder(cmp) && 0 <= lo <= i < hi <= a.Length && lo <= j < hi && i != j
    modifies a
    ensures moved <==> cmp(old(a[j]), old(a[i])) < 0
    ensures a[..] == if moved then Swapped(old(a[..]), i, j) else old(a[..])
    ensures Rearranged(old(a[..]), a[..], lo, hi)
    ensures cmp(a[i], a[j]) <= 0
  {
    hide TotalPreorder, Rearranged;
    moved := cmp(a[j], a[i]) < 0;
    Flip(cmp, a[j], a[i]);
    RearrangedRefl(a[..], lo, hi);
    SwapRearranges(a[..], i, j, lo, hi);
    if moved {
      Swap(a, i, j);
    }
  }

  /** With the ends in order, bring the middle one between them. */
  method OrderMiddle<T(!new)>(a: array<T>, lo: int, mid: int, hi: int, cmp: (T, T) -> int)
    requires TotalPreorder(cmp) && 0 <= lo < mid < hi < a.Length && cmp(a[lo], a[hi]) <= 0
    modifies a
    ensures Rearranged(old(a[..]), a[..], lo, hi + 1)
    ensures cmp(a[lo], a[mid]) <= 0 && cmp(a[mid], a[hi]) <= 0
  {
    hide TotalPreorder, Rearranged;
    var moved := OrderPair(a, lo, mid, lo, hi + 1, cmp);
    if !moved {
      moved := OrderPair(a, mid, hi, lo, hi + 1, cmp);
    }
  }

  /** Order a[lo], a[mid], a[hi] by at most two exchanges; the middle one becomes the pivot. */
  method MedianOfThree<T(!new)>(a: array<T>, lo: int, hi: int, cmp: (T, T) -> int) returns (pivot: T)
    requires TotalPreorder(cmp) && 0 <= lo && lo + 2 <= hi < a.Length
    modifies a
    ensures Rearranged(old(a[..]), a[..], lo, hi + 1)
    ensures cmp(a[lo], pivot) <= 0 && cmp(pivot, a[hi]) <= 0
  {
    hide TotalPreorder, Rearranged;
    var mid := lo + (hi - lo) / 2;
    ghost var s0 := a[..];
    var moved := OrderPair(a, lo, hi, lo, hi + 1, cmp);
    ghost var s1 := a[..];
    OrderMiddle(a, lo, mid, hi, cmp);
    RearrangedTrans(s0, s1, a[..], lo, hi + 1);
    pivot := a[mid];
  }

  /** Move right over elements below the pivot. No bounds check: the element at sentinel stops it. */
  method ScanRight<T(!new)>(a: array<T>, start: int, sentinel: int, pivot: T, cmp: (T, T) -> int) returns (left: int)
    requires 0 <= start <= sentinel < a.Length && !(cmp(a[sentinel], pivot) < 0)
    ensures start <= left <= sentinel && !(cmp(a[left], pivot) < 0)
    ensures AtMost(cmp, a[..], start, left, pivot)
  {
    left := start;
    while cmp(a[left], pivot) < 0
      invariant start <= left <= sentinel
      invariant AtMost(cmp, a[..], start, left, pivot)
      decreases sentinel - left
    {
      left := left + 1;
    }
  }

  /** Move left over elements above the pivot, down to at most the sentinel. */
  method ScanLeft<T(!new)>(a: array<T>, start: int, sentinel: int, pivot: T, cmp: (T, T) -> int) returns (right: int)
    requires 0 <= sentinel <= start < a.Length && !(cmp(pivot, a[sentinel]) < 0)
    ensures sentinel <= right <= start && !(cmp(pivot, a[right]) < 0)
    ensures AtLeast(cmp, a[..], right + 1, start + 1, pivot)
  {
    right := start;
    while cmp(pivot, a[right]) < 0
      invariant sentinel <= right <= start
      invariant AtLeast(cmp, a[..], right + 1, start + 1, pivot)
      decreases right
    {
      right := right - 1;
    }
  }

  lemma NotBelow<T(!new)>(cmp: (T, T) -> int, x: T, y: T)
    requires TotalPreorder(cmp)
    ensures !(cmp(x, y) < 0) <==> cmp(y, x) <= 0
  {
    Flip(cmp, x, y);
  }

  /** The walls: everything left of left is at most the pivot, everything right of right at least. */
  ghost predicate Walls<T>(cmp: (T, T) -> int, s: seq<T>, lo: int, hi: int, left: int, right: int, pivot: T)
  {
    && lo < left && right < hi < |s|
    && AtMost(cmp, s, lo, left, pivot) && AtLeast(cmp, s, right + 1, hi + 1, pivot)
  }

  /** The two scans: each stops at an element that has to change sides, or where the walls meet. */
  method ScanBoth<T(!new)>(a: array<T>, lo: int, hi: int, left0: int, right0: int, pivot: T, cmp: (T, T) -> int)
    returns (left: int, right: int)
    requires TotalPreorder(cmp) && 0 <= lo && left0 <= right0
    requires Walls(cmp, a[..], lo, hi, left0, right0, pivot)
    ensures left0 <= left <= right0 + 1 && left - 1 <= right <= right0
    ensures Walls(cmp, a[..], lo, hi, left, right, pivot)
    ensures cmp(pivot, a[left]) <= 0 && cmp(a[right], pivot) <= 0
  {
    hide TotalPreorder;
    NotBelow(cmp, a[right0 + 1], pivot);
    left := ScanRight(a, left0, right0 + 1, pivot, cmp);
    LeftWall(cmp, a[..], lo, left0, left, pivot);
    NotBelow(cmp, pivot, a[left - 1]);
    right := ScanLeft(a, right0, left - 1, pivot, cmp);
    NotBelow(cmp, a[left], pivot);
    NotBelow(cmp, pivot, a[right]);
  }

  lemma LeftWall<T>(cmp: (T, T) -> int, s: seq<T>, lo: int, mid: int, left: int, pivot: T)
    requires lo < mid && AtMost(cmp, s, lo, mid, pivot) && AtMost(cmp, s, mid, left, pivot)
    ensures AtMost(cmp, s, lo, left, pivot) && cmp(s[left - 1], pivot) <= 0
  {
  }

  /** Exchanging the two elements lets both walls advance. */
  lemma WallsSwapped<T>(cmp: (T, T) -> int, s: seq<T>, lo: int, hi: int, left: int, right: int, pivot: T)
    requires 0 <= lo && left < right && Walls(cmp, s, lo, hi, left, right, pivot)
    requires cmp(pivot, s[left]) <= 0 && cmp(s[right], pivot) <= 0
    ensures Walls(cmp, Swapped(s, left, right), lo, hi, left + 1, right - 1, pivot)
  {
  }

  method Exchange<T(!new)>(a: array<T>, lo: int, hi: int, left: int, right: int, pivot: T, cmp: (T, T) -> int)
    requires 0 <= lo < left < right < hi < a.Length && Walls(cmp, a[..], lo, hi, left, right, pivot)
    requires cmp(pivot, a[left]) <= 0 && cmp(a[right], pivot) <= 0
    modifies a
    ensures Rearranged(old(a[..]), a[..], lo, hi + 1)
    ensures Walls(cmp, a[..], lo, hi, left + 1, right - 1, pivot)
  {
    hide Rearranged, Walls;
    WallsSwapped(cmp, a[..], lo, hi, left, right, pivot);
    SwapRearranges(a[..], left, right, lo, hi + 1);
    Swap(a, left, right);
  }

  /** One turn of the collapsing walls. */
  method MoveWalls<T(!new)>(a: array<T>, lo: int, hi: int, left0: int, right0: int, pivot: T, cmp: (T, T) -> int)
    returns (left: int, right: int)
    requires TotalPreorder(cmp) && 0 <= lo && left0 <= right0
    requires Walls(cmp, a[..], lo, hi, left0, right0, pivot)
    modifies a
    ensures Rearranged(old(a[..]), a[..], lo, hi + 1)
    ensures Walls(cmp, a[..], lo, hi, left, right, pivot)
    ensures left - right > left0 - right0 && lo <= right && left <= hi && left <= right + 2
  {
    hide TotalPreorder, Rearranged, Walls;
    WallBounds(cmp, a[..], lo, hi, left0, right0, pivot);
    left, right := ScanBoth(a, lo, hi, left0, right0, pivot, cmp);
    ghost var s := a[..];
    RearrangedRefl(s, lo, hi + 1);
    if left < right {
      WallBounds(cmp, s, lo, hi, left, right, pivot);
      Exchange(a, lo, hi, left, right, pivot, cmp);
      left := left + 1;
      right := right - 1;
    } else if left == right {
      WallsMeet(cmp, s, lo, hi, left, pivot);
      left := left + 1;
      right := right - 1;
    }
  }

  lemma WallBounds<T>(cmp: (T, T) -> int, s: seq<T>, lo: int, hi: int, left: int, right: int, pivot: T)
    requires Walls(cmp, s, lo, hi, left, right, pivot)
    ensures lo < left && right < hi < |s|
  {
  }

  lemma WallsMeet<T>(cmp: (T, T) -> int, s: seq<T>, lo: int, hi: int, k: int, pivot: T)
    requires 0 <= lo && Walls(cmp, s, lo, hi, k, k, pivot) && cmp(pivot, s[k]) <= 0 && cmp(s[k], pivot) <= 0
    ensures Walls(cmp, s, lo, hi, k + 1, k - 1, pivot)
  {
  }

  /** The do-while loop: a[lo..left] is at most the pivot, a[right+1..hi+1] at least, and the two overlap or meet. */
  method CollapseWalls<T(!new)>(a: array<T>, lo: int, hi: int, pivot: T, cmp: (T, T) -> int)
    returns (left: int, right: int)
    requires TotalPreorder(cmp) && 0 <= lo && lo + 2 <= hi < a.Length
    requires cmp(a[lo], pivot) <= 0 && cmp(pivot, a[hi]) <= 0
    modifies a
    ensures Rearranged(old(a[..]), a[..], lo, hi + 1)
    ensures Walls(cmp, a[..], lo, hi, left, right, pivot)
    ensures lo <= right < left <= hi && left <= right + 2
  {
    hide TotalPreorder, Rearranged;
    ghost var s0 := a[..];
    RearrangedRefl(s0, lo, hi + 1);
    left, right := lo + 1, hi - 1;
    while left <= right
      invariant left <= right + 2 && lo <= right && left <= hi
      invariant Walls(cmp, a[..], lo, hi, left, right, pivot)
      invariant Rearranged(s0, a[..], lo, hi + 1)
      decreases right - left + 1
    {
      ghost var s := a[..];
      left, right := MoveWalls(a, lo, hi, left, right, pivot, cmp);
      RearrangedTrans(s0, s, a[..], lo, hi + 1);
    }
  }

  /** Everything up to right is at most everything from left on, with at most one element between. */
  ghost predicate Parted<T>(cmp: (T, T) -> int, s: seq<T>, lo: int, hi: int, left: int, right: int)
  {
    && 0 <= lo <= right < left <= hi < |s| && left <= right + 2
    && forall i, j :: lo <= i <= right && right < j <= hi ==> cmp(s[i], s[j]) <= 0
  }

  /** One partitioning of a[lo..hi+1]. */
  method PartitionRange<T(!new)>(a: array<T>, lo: int, hi: int, cmp: (T, T) -> int) returns (left: int, right: int)
    requires TotalPreorder(cmp) && 0 <= lo && lo + 2 <= hi < a.Length
    modifies a
    ensures Rearranged(old(a[..]), a[..], lo, hi + 1)
    ensures Parted(cmp, a[..], lo, hi, left, right)
  {
    hide TotalPreorder, Rearranged, Walls, Parted;
    ghost var s0 := a[..];
    var pivot := MedianOfThree(a, lo, hi, cmp);
    ghost var s1 := a[..];
    left, right := CollapseWalls(a, lo, hi, pivot, cmp);
    RearrangedTrans(s0, s1, a[..], lo, hi + 1);
    WallsPart(cmp, a[..], lo, hi, left, right, pivot);
  }

  lemma WallsPart<T(!new)>(cmp: (T, T) -> int, s: seq<T>, lo: int, hi: int, left: int, right: int, pivot: T)
    requires TotalPreorder(cmp) && Walls(cmp, s, lo, hi, left, right, pivot)
    requires lo <= right < left <= hi && left <= right + 2
    ensures Parted(cmp, s, lo, hi, left, right)
  {
    hide TotalPreorder;
    forall i, j | lo <= i <= right && right < j <= hi ensures cmp(s[i], s[j]) <= 0 {
      Trans(cmp, s[i], pivot, s[j]);
    }
  }
}
